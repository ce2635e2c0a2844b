/**
 The token refresh chain of jwtx. Signing and verifying are two opaque functions that undo each
 other; time is whole seconds. The exp claim is that of section 4.1.4 of RFC 7519: a token is
 rejected on or after it.
 */
module TokenChain {
  import opened Arithmetic
  import opened Wrappers
  import opened Text
  import opened NameText

  /** Who the token is for; nothing in a refresh looks at it. */
  datatype Identity = Identity(
    userId: string, roleId: string, deptId: string, userName: string, nickName: string, issuer: string)

  datatype Claims = Claims(who: Identity, expire: int, refreshAt: int, issuedAt: int, expiresAt: int)

  /** Go's integer division by two, which truncates toward zero. */
  function Half(x: int): (h: int)
    ensures x >= 0 ==> 2 * h <= x <= 2 * h + 1
    ensures x < 0 ==> 2 * h - 1 <= x <= 2 * h
  {
    if x >= 0 then x / 2 else -(-x / 2)
  }

  function GetTokenClaims(
      username: string, nickName: string, issuer: string, iat: int, seconds: int,
      uid: string, roleId: string, deptId: string): Claims
  {
    Claims(Identity(uid, roleId, deptId, username, nickName, issuer), seconds,
           iat + Half(seconds), iat, iat + seconds)
  }

  datatype ParseError = CheckRefresh | Invalid

  /** A verified signature's claims: expired wins over used-before-issued in the error returned. */
  function ParseToken(c: Claims, now: int): Result<Claims, ParseError>
  {
    if now >= c.expiresAt then Err(CheckRefresh)
    else if now < c.issuedAt then Err(Invalid)
    else Ok(c)
  }

  /** The clock readings of one call: on parsing, on deciding about a refresh, and on signing it. */
  datatype Call = Call(parsed: int, decided: int, signed: int)

  /** The claims a refresh signs. */
  function Refreshed(c: Claims, at: Call): Claims
  {
    Claims(c.who, c.expire, at.decided + Half(c.expire), at.signed, at.decided + c.expire)
  }

  datatype Verdict = Rejected | Accepted(renewed: Option<Claims>)

  function Check(c: Claims, at: Call): Verdict
  {
    if ParseToken(c, at.parsed).Err? then Rejected
    else Accepted(if c.refreshAt < at.decided then Some(Refreshed(c, at)) else None)
  }

  // ---------- Token texts ----------

  /** stripBearerPrefixFromTokenString */
  function StripBearer(token: string): string
  {
    if |token| > 6 && Upper(token[..7]) == "BEARER " then token[7..] else token
  }

  /** The prefix is seven characters that read "BEARER " in capitals; it goes, and nothing else does. */
  lemma StripBearerExactly(prefix: string, token: string)
    ensures Upper(prefix) == "BEARER " ==> StripBearer(prefix + token) == token
    ensures (forall p :: Upper(p) == "BEARER " ==> !(p <= token)) ==> StripBearer(token) == token
  {
    assert |Upper(prefix)| == |prefix|;
    assert |prefix| == 7 ==> (prefix + token)[..7] == prefix && (prefix + token)[7..] == token;
    assert |token| > 6 ==> token[..7] <= token;
  }

  const DOT := '.'

  /**
   ParseToken asks for the claims of what the library returns before it looks at the error, and for a
   text that is not three parts between dots the library returns nothing at all.
   */
  predicate Panics(token: string)
  {
    Count(StripBearer(token), DOT) != 2
  }

  lemma TextsThatPanic()
    ensures Panics("") && Panics("abc") && Panics("Bearer ")
  {
    assert Count("abc"[1..], DOT) == Count("bc"[1..], DOT) == 0;
    assert "Bearer "[..7] == "Bearer " && "Bearer "[7..] == "";
  }

  /** Verifying undoes signing, and a signed token is three parts between dots with no space in them. */
  ghost predicate Signer(sign: Claims -> string, verify: string -> Option<Claims>)
  {
    forall c :: verify(sign(c)) == Some(c) && ' ' !in sign(c) && Count(sign(c), DOT) == 2
  }

  lemma BearerIsOptional(sign: Claims -> string, verify: string -> Option<Claims>, c: Claims, prefix: string)
    requires Signer(sign, verify) && Upper(prefix) == "BEARER "
    ensures StripBearer(sign(c)) == StripBearer(prefix + sign(c)) == sign(c)
    ensures verify(StripBearer(sign(c))) == Some(c) && !Panics(sign(c)) && !Panics(prefix + sign(c))
  {
    var token := sign(c);
    if |token| > 6 {
      assert token[6] in token;
      assert Upper(token[..7])[6] != ' ';
    }
    assert |prefix| == |Upper(prefix)| == 7;
    assert (prefix + token)[..7] == prefix && (prefix + token)[7..] == token;
  }

  /** What ParseToken comes to on a text: nothing, when it panics. */
  function ParseText(token: string, verify: string -> Option<Claims>, now: int): Option<Result<Claims, ParseError>>
  {
    if Panics(token) then None
    else match verify(StripBearer(token))
      case None => Some(Err(Invalid))
      case Some(c) => Some(ParseToken(c, now))
  }

  /** What GetClaimsFromToken returns without an error; the readers of single fields go by it. */
  function GetClaimsFromToken(token: string, verify: string -> Option<Claims>, now: int): Option<Claims>
  {
    match ParseText(token, verify, now)
    case Some(Ok(c)) => Some(c)
    case _ => None
  }

  function GetUserIdFromToken(token: string, verify: string -> Option<Claims>, now: int): Option<string>
  {
    match GetClaimsFromToken(token, verify, now) case None => None case Some(c) => Some(c.who.userId)
  }

  function GetRoleIdFromToken(token: string, verify: string -> Option<Claims>, now: int): Option<string>
  {
    match GetClaimsFromToken(token, verify, now) case None => None case Some(c) => Some(c.who.roleId)
  }

  function GetDeptIdFromToken(token: string, verify: string -> Option<Claims>, now: int): Option<string>
  {
    match GetClaimsFromToken(token, verify, now) case None => None case Some(c) => Some(c.who.deptId)
  }

  /** What a call of CheckToken comes to; "" is no token. */
  datatype Outcome = Panicked | Answered(ok: bool, refreshToken: string)

  /** CheckToken updates the parsed claims field by field before signing them again. */
  method CheckToken(token: string, sign: Claims -> string, verify: string -> Option<Claims>, at: Call)
    returns (r: Outcome)
    ensures r.Panicked? <==> Count(StripBearer(token), '.') != 2
    ensures r.Answered? ==>
              var verified := verify(StripBearer(token));
              r.ok <==> verified.Some? && Check(verified.value, at).Accepted?
    ensures r.Answered? && !r.ok ==> r.refreshToken == ""
    ensures r.Answered? && r.ok ==>
              match Check(verify(StripBearer(token)).value, at).renewed
              case None => r.refreshToken == ""
              case Some(c) => r.refreshToken == sign(c)
  {
    var text := StripBearer(token);
    SplitCounts(text, DOT);
    if |Split(text, DOT)| != 3 {
      return Panicked;
    }
    var verified := verify(text);
    if verified.None? {
      return Answered(false, "");
    }
    var parsed := ParseToken(verified.value, at.parsed);
    if parsed.Err? {
      return Answered(false, "");
    }
    var claims := parsed.value;
    if claims.refreshAt < at.decided {
      claims := claims.(expiresAt := at.decided + claims.expire);
      claims := claims.(refreshAt := at.decided + Half(claims.expire));
      claims := claims.(issuedAt := at.signed);
      return Answered(true, sign(claims));
    }
    r := Answered(true, "");
  }

  // ---------- Chains ----------

  /** The claims a client goes on with. */
  function Newest(c: Claims, at: Call): Claims
  {
    var v := Check(c, at);
    if v.Accepted? && v.renewed.Some? then v.renewed.value else c
  }

  /** A client that makes the given calls and always uses its newest token. */
  function Session(c: Claims, calls: seq<Call>): seq<Verdict>
    decreases |calls|
  {
    if calls == [] then [] else [Check(c, calls[0])] + Session(Newest(c, calls[0]), calls[1..])
  }

  predicate NeverRejected(c: Claims, calls: seq<Call>)
  {
    Rejected !in Session(c, calls)
  }

  /** Calls one after the other, each parsed at most gap seconds after the one before decided. */
  predicate Within(decided: int, signed: int, calls: seq<Call>, gap: int)
    decreases |calls|
  {
    calls == [] ||
    var at := calls[0];
    && signed <= at.parsed <= decided + gap && at.parsed <= at.decided <= at.signed
    && Within(at.decided, at.signed, calls[1..], gap)
  }

  /** A token of the chain as it is after its last use or, before any, at its issue. */
  ghost predicate Fits(c: Claims, decided: int, signed: int)
  {
    && c.expire > 0 && c.expiresAt - c.refreshAt == c.expire - Half(c.expire)
    && decided <= c.refreshAt && c.issuedAt <= signed
  }

  lemma {:induction false} SurvivesFrom(c: Claims, decided: int, signed: int, calls: seq<Call>, gap: int)
    requires Fits(c, decided, signed) && Within(decided, signed, calls, gap) && gap < c.expire - Half(c.expire)
    ensures NeverRejected(c, calls)
    decreases |calls|
  {
    if calls != [] {
      var at := calls[0];
      SurvivesFrom(Newest(c, at), at.decided, at.signed, calls[1..], gap);
    }
  }

  /**
   A pace of at most gap seconds between calls keeps every session alive exactly when
   gap is below half the lifetime, rounded up.
   */
  lemma SafePaceExactly(
      username: string, nickName: string, issuer: string, iat: int, seconds: int,
      uid: string, roleId: string, deptId: string, gap: nat)
    requires seconds > 0
    ensures var c := GetTokenClaims(username, nickName, issuer, iat, seconds, uid, roleId, deptId);
            (forall calls :: Within(iat, iat, calls, gap) ==> NeverRejected(c, calls))
            <==> gap < seconds - seconds / 2
  {
    var c := GetTokenClaims(username, nickName, issuer, iat, seconds, uid, roleId, deptId);
    if gap < seconds - Half(seconds) {
      forall calls | Within(iat, iat, calls, gap)
        ensures NeverRejected(c, calls)
      {
        SurvivesFrom(c, iat, iat, calls, gap);
      }
    } else {
      var t1, t2 := iat + Half(seconds), iat + seconds;
      var first, second := Call(t1, t1, t1), Call(t2, t2, t2);
      var calls := [first, second];
      assert calls[1..] == [second];
      assert Within(t1, t1, [second], gap);
      assert Within(iat, iat, calls, gap);
      assert Session(c, calls) == [Accepted(None)] + Session(c, [second]);
      assert Session(c, [second])[0] == Rejected;
      assert Session(c, calls)[1] == Rejected;
      assert !NeverRejected(c, calls);
    }
  }

  function Renewals(vs: seq<Verdict>): nat
  {
    if vs == [] then 0
    else (if vs[0].Accepted? && vs[0].renewed.Some? then 1 else 0) + Renewals(vs[1..])
  }

  predicate Ascending(from: int, calls: seq<Call>, until: int)
    decreases |calls|
  {
    if calls == [] then from <= until
    else
      var at := calls[0];
      from <= at.parsed <= at.decided <= at.signed && Ascending(at.signed, calls[1..], until)
  }

  lemma {:induction false} RenewalsFrom(c: Claims, last: int, calls: seq<Call>, until: int)
    requires c.expire > 0 && c.refreshAt - Half(c.expire) <= last && Ascending(last, calls, until)
    ensures Renewals(Session(c, calls)) * (Half(c.expire) + 1) <= until - (c.refreshAt - Half(c.expire))
    decreases |calls|
  {
    if calls != [] {
      var newest := Newest(c, calls[0]);
      RenewalsFrom(newest, calls[0].signed, calls[1..], until);
      assert Session(c, calls)[1..] == Session(newest, calls[1..]);
      OneMore(Renewals(Session(newest, calls[1..])), Half(c.expire) + 1);
    }
  }

  /** Refreshing is rate limited: k renewals take at least k * (seconds / 2 + 1) seconds. */
  lemma RenewalsAreSpaced(
      username: string, nickName: string, issuer: string, iat: int, seconds: int,
      uid: string, roleId: string, deptId: string, calls: seq<Call>, until: int)
    requires seconds > 0 && Ascending(iat, calls, until)
    ensures var c := GetTokenClaims(username, nickName, issuer, iat, seconds, uid, roleId, deptId);
            Renewals(Session(c, calls)) * (seconds / 2 + 1) <= until - iat
  {
    RenewalsFrom(GetTokenClaims(username, nickName, issuer, iat, seconds, uid, roleId, deptId), iat, calls, until);
  }

  /** Every token of a chain names the same user and lives for the same time from its own refresh. */
  lemma {:induction false} RenewalsKeepIdentity(c: Claims, calls: seq<Call>, k: nat)
    requires k < |Session(c, calls)| && Session(c, calls)[k].Accepted? && Session(c, calls)[k].renewed.Some?
    ensures |Session(c, calls)| == |calls|
    ensures var r := Session(c, calls)[k].renewed.value;
            && r.who == c.who && r.expire == c.expire
            && r.issuedAt == calls[k].signed && r.expiresAt == calls[k].decided + c.expire
    decreases |calls|
  {
    SessionLength(c, calls);
    if k > 0 {
      var newest := Newest(c, calls[0]);
      assert Session(c, calls)[k] == Session(newest, calls[1..])[k - 1];
      RenewalsKeepIdentity(newest, calls[1..], k - 1);
    }
  }

  lemma {:induction false} SessionLength(c: Claims, calls: seq<Call>)
    ensures |Session(c, calls)| == |calls|
    decreases |calls|
  {
    if calls != [] {
      SessionLength(Newest(c, calls[0]), calls[1..]);
    }
  }

  // ---------- Who a token is for ----------

  /** What the readers say of a token's text at a time. */
  ghost predicate ReadsAs(
      token: string, verify: string -> Option<Claims>, now: int,
      uid: string, roleId: string, deptId: string, username: string, nickName: string, issuer: string)
  {
    && GetUserIdFromToken(token, verify, now) == Some(uid)
    && GetRoleIdFromToken(token, verify, now) == Some(roleId)
    && GetDeptIdFromToken(token, verify, now) == Some(deptId)
    && GetClaimsFromToken(token, verify, now).Some?
    && var who := GetClaimsFromToken(token, verify, now).value.who;
       who.userName == username && who.nickName == nickName && who.issuer == issuer
  }

  ghost predicate ReadsAsNobody(token: string, verify: string -> Option<Claims>, now: int)
  {
    && GetUserIdFromToken(token, verify, now) == None && GetRoleIdFromToken(token, verify, now) == None
    && GetDeptIdFromToken(token, verify, now) == None && GetClaimsFromToken(token, verify, now) == None
  }

  /** A token issued reads back as what it was issued for, from its issue until before its expiry. */
  lemma IssuedTokenReadsBack(
      username: string, nickName: string, issuer: string, iat: int, seconds: int,
      uid: string, roleId: string, deptId: string,
      sign: Claims -> string, verify: string -> Option<Claims>, now: int)
    requires Signer(sign, verify)
    ensures var token := sign(GetTokenClaims(username, nickName, issuer, iat, seconds, uid, roleId, deptId));
            if iat <= now < iat + seconds
            then ReadsAs(token, verify, now, uid, roleId, deptId, username, nickName, issuer)
            else ReadsAsNobody(token, verify, now)
  {
    var c := GetTokenClaims(username, nickName, issuer, iat, seconds, uid, roleId, deptId);
    BearerIsOptional(sign, verify, c, "BEARER ");
  }

  /** So does every token that CheckToken makes from it, from its signing until seconds after the decision. */
  lemma RenewedTokensReadBack(
      username: string, nickName: string, issuer: string, iat: int, seconds: int,
      uid: string, roleId: string, deptId: string,
      sign: Claims -> string, verify: string -> Option<Claims>, calls: seq<Call>, k: nat, now: int)
    requires Signer(sign, verify)
    requires var session :=
               Session(GetTokenClaims(username, nickName, issuer, iat, seconds, uid, roleId, deptId), calls);
             k < |session| && session[k].Accepted? && session[k].renewed.Some?
    ensures var session :=
              Session(GetTokenClaims(username, nickName, issuer, iat, seconds, uid, roleId, deptId), calls);
            var token := sign(session[k].renewed.value);
            && |session| == |calls|
            && if calls[k].signed <= now < calls[k].decided + seconds
               then ReadsAs(token, verify, now, uid, roleId, deptId, username, nickName, issuer)
               else ReadsAsNobody(token, verify, now)
  {
    var c := GetTokenClaims(username, nickName, issuer, iat, seconds, uid, roleId, deptId);
    RenewalsKeepIdentity(c, calls, k);
    BearerIsOptional(sign, verify, Session(c, calls)[k].renewed.value, "BEARER ");
  }

  /** Which error: an expired token asks for a refresh, even when it was also used before its issue. */
  lemma ErrorsOfIssuedToken(
      username: string, nickName: string, issuer: string, iat: int, seconds: int,
      uid: string, roleId: string, deptId: string, now: int)
    ensures var r := ParseToken(GetTokenClaims(username, nickName, issuer, iat, seconds, uid, roleId, deptId), now);
            && (r == Err(CheckRefresh) <==> now >= iat + seconds)
            && (r == Err(Invalid) <==> now < iat && now < iat + seconds)
  {
  }
}
