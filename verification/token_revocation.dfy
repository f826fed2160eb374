/**
 Access and refresh tokens, their expiry, and the blacklist that has to cover a revoked token until that
 expiry. HS256 is deterministic, so equal claims are issued in equal texts, and claims that were never
 issued have no valid signature. The blacklist compares texts.
 */
module TokenRevocation {
  import opened Common

  const ACCESS_EXPIRY_SECONDS: nat := 15 * 60
  const REFRESH_EXPIRY_SECONDS: nat := 7 * 24 * 60 * 60

  datatype Settings = Settings(accessExpireMinutes: nat, refreshExpireDays: nat)

  datatype Kind = Access | Refresh

  /** What a token says, times in whole seconds. */
  datatype Claims = Claims(subject: string, kind: Kind, iat: int, exp: int)

  /**
   A text that is presented as a token: one that decodes to signed claims, or any other. The service issues
   claims in one text, numbered 0; a decoder that reads other texts as the same claims gives them other numbers.
   */
  datatype Token = Jwt(claims: Claims, variant: nat) | Other(text: string)

  /** Blacklisted tokens with the time at which Redis lets the key go. */
  type Blacklist = map<Token, real>

  datatype World = World(issued: set<Claims>, blacklist: Blacklist, now: real)

  function Lifetime(cfg: Settings, kind: Kind): nat {
    match kind
    case Access => cfg.accessExpireMinutes * 60
    case Refresh => cfg.refreshExpireDays * 86400
  }

  /** The encoder cuts iat and exp down to whole seconds. */
  function CreateToken(cfg: Settings, subject: string, kind: Kind, now: real): (t: Token)
    ensures t.Jwt?
  {
    Jwt(Claims(subject, kind, now.Floor, now.Floor + Lifetime(cfg, kind)), 0)
  }

  function IssuePair(cfg: Settings, w: World, subject: string): World {
    w.(issued := w.issued + {CreateToken(cfg, subject, Access, w.now).claims, CreateToken(cfg, subject, Refresh, w.now).claims})
  }

  /** decode_access_token and decode_refresh_token: signature, expiry (section 4.1.4 of RFC 7519), type. */
  predicate Decodes(w: World, t: Token, kind: Kind) {
    t.Jwt? && t.claims in w.issued && w.now < t.claims.exp as real && t.claims.kind == kind
  }

  predicate IsBlacklisted(b: Blacklist, t: Token, now: real) {
    t in b && now < b[t]
  }

  /** get_current_user_id; the GraphQL context and the WebSocket endpoint check the same. */
  predicate PassesGuard(w: World, t: Token) {
    !IsBlacklisted(w.blacklist, t, w.now) && Decodes(w, t, Access)
  }

  /** The token checks of RefreshTokenUseCase. */
  predicate MayRefresh(w: World, t: Token) {
    !IsBlacklisted(w.blacklist, t, w.now) && Decodes(w, t, Refresh)
  }

  /** Those two checks are all that read the blacklist; either one accepting a token keeps it usable. */
  predicate Accepted(w: World, t: Token) {
    PassesGuard(w, t) || MayRefresh(w, t)
  }

  function LoggedOut(b: Blacklist, access: Token, refresh: Token, now: real): Blacklist {
    b[access := now + ACCESS_EXPIRY_SECONDS as real][refresh := now + REFRESH_EXPIRY_SECONDS as real]
  }

  // ---------- runs ----------

  /** A logout presents an access token in its header and any string as the refresh token of its body. */
  datatype Event =
    | Login(subject: string)
    | Logout(access: Token, refresh: Token)
    | RefreshTokens(token: Token, userActive: bool)
    | Wait(seconds: real)

  function Next(cfg: Settings, w: World, e: Event): World {
    match e
    case Login(subject) => IssuePair(cfg, w, subject)
    case Logout(access, refresh) =>
      if PassesGuard(w, access) then w.(blacklist := LoggedOut(w.blacklist, access, refresh, w.now)) else w
    case RefreshTokens(t, active) =>
      if MayRefresh(w, t) && active then IssuePair(cfg, w, t.claims.subject) else w
    case Wait(s) => w.(now := w.now + s)
  }

  /** Nobody presents a signed token before it is issued, and time does not run back. */
  predicate Legal(w: World, e: Event) {
    match e
    case Logout(_, refresh) => refresh.Jwt? ==> refresh.claims in w.issued
    case Wait(s) => s >= 0.0
    case _ => true
  }

  predicate IsRun(cfg: Settings, ws: seq<World>, es: seq<Event>) {
    && |ws| == |es| + 1
    && ws[0] == World({}, map[], 0.0)
    && forall i | 0 <= i < |es| :: Legal(ws[i], es[i]) && ws[i + 1] == Next(cfg, ws[i], es[i])
  }

  /** A guarded logout that went through revokes both of its tokens. */
  predicate Revokes(w: World, e: Event, t: Token) {
    e.Logout? && PassesGuard(w, e.access) && (t == e.access || t == e.refresh)
  }

  // ---------- the cover between blacklist and expiry ----------

  /** Every issued token has its configured lifetime, counted from a second that has begun. */
  predicate IssuedHonestly(cfg: Settings, w: World) {
    forall c | c in w.issued :: c.exp == c.iat + Lifetime(cfg, c.kind) && c.iat as real <= w.now
  }

  predicate Covers(cfg: Settings) {
    Lifetime(cfg, Access) <= ACCESS_EXPIRY_SECONDS && Lifetime(cfg, Refresh) <= REFRESH_EXPIRY_SECONDS
  }

  /** The entry for t outlives t. */
  predicate Covered(w: World, t: Token) {
    t in w.blacklist && (t.Jwt? ==> t.claims.exp as real <= w.blacklist[t])
  }

  lemma CoveredIsNeverAccepted(w: World, t: Token)
    requires Covered(w, t)
    ensures !Accepted(w, t)
  {
  }

  lemma NextIssuesHonestly(cfg: Settings, w: World, e: Event)
    requires IssuedHonestly(cfg, w) && Legal(w, e)
    ensures IssuedHonestly(cfg, Next(cfg, w, e))
  {
  }

  lemma {:induction false} RunsIssueHonestly(cfg: Settings, ws: seq<World>, es: seq<Event>, i: nat)
    requires IsRun(cfg, ws, es) && i < |ws|
    ensures IssuedHonestly(cfg, ws[i])
  {
    if i > 0 {
      RunsIssueHonestly(cfg, ws, es, i - 1);
      NextIssuesHonestly(cfg, ws[i - 1], es[i - 1]);
    }
  }

  /** Revoking a token covers it: the type check keeps refresh tokens out of the shorter slot. */
  lemma RevokedIsCovered(cfg: Settings, w: World, e: Event, t: Token)
    requires Covers(cfg) && IssuedHonestly(cfg, w) && Legal(w, e) && Revokes(w, e, t)
    ensures Covered(Next(cfg, w, e), t)
  {
  }

  /** No later event, another logout included, shortens the cover. */
  lemma CoverIsKept(cfg: Settings, w: World, e: Event, t: Token)
    requires Covers(cfg) && IssuedHonestly(cfg, w) && Legal(w, e) && Covered(w, t)
    ensures Covered(Next(cfg, w, e), t)
  {
    CoveredIsNeverAccepted(w, t);
  }

  lemma {:induction false} RevokedStaysCovered(cfg: Settings, ws: seq<World>, es: seq<Event>, i: nat, j: nat, t: Token)
    requires IsRun(cfg, ws, es) && Covers(cfg)
    requires i < j < |ws| && Revokes(ws[i], es[i], t)
    ensures Covered(ws[j], t)
  {
    RunsIssueHonestly(cfg, ws, es, j - 1);
    if j == i + 1 {
      RevokedIsCovered(cfg, ws[i], es[i], t);
    } else {
      RevokedStaysCovered(cfg, ws, es, i, j - 1, t);
      CoverIsKept(cfg, ws[j - 1], es[j - 1], t);
    }
  }

  /** In no run is a revoked token accepted again. */
  ghost predicate RevocationIsFinal(cfg: Settings) {
    forall ws, es, i, j, t | IsRun(cfg, ws, es) && 0 <= i < j < |ws| && Revokes(ws[i], es[i], t) :: !Accepted(ws[j], t)
  }

  /** A run in which a revoked token comes back: login, logout at once, wait until the entry goes. */
  lemma LongerLifetimesComeBack(cfg: Settings, kind: Kind) returns (ws: seq<World>, es: seq<Event>, t: Token)
    requires cfg.accessExpireMinutes > 0
    requires kind.Access? ==> Lifetime(cfg, Access) > ACCESS_EXPIRY_SECONDS
    requires kind.Refresh? ==> Lifetime(cfg, Refresh) > REFRESH_EXPIRY_SECONDS
    ensures IsRun(cfg, ws, es) && |ws| == 4 && Revokes(ws[1], es[1], t) && Accepted(ws[3], t)
  {
    var access, refresh := CreateToken(cfg, "u", Access, 0.0), CreateToken(cfg, "u", Refresh, 0.0);
    var w0 := World({}, map[], 0.0);
    var ttl := if kind.Access? then ACCESS_EXPIRY_SECONDS else REFRESH_EXPIRY_SECONDS;
    t := if kind.Access? then access else refresh;
    es := [Login("u"), Logout(access, refresh), Wait(ttl as real)];
    var w1 := Next(cfg, w0, es[0]);
    assert access.claims in w1.issued && refresh.claims in w1.issued;
    var w2 := Next(cfg, w1, es[1]);
    assert w2.blacklist[t] == ttl as real;
    var w3 := Next(cfg, w2, es[2]);
    ws := [w0, w1, w2, w3];
  }

  /** Logout's fixed lifetimes close the gap exactly when the configured ones are no longer, or no access token is ever valid. */
  lemma RevocationIsFinalExactly(cfg: Settings)
    ensures RevocationIsFinal(cfg) <==>
            cfg.accessExpireMinutes == 0 || (cfg.accessExpireMinutes <= 15 && cfg.refreshExpireDays <= 7)
  {
    if cfg.accessExpireMinutes == 0 {
      forall ws, es, i: nat, t | IsRun(cfg, ws, es) && i < |es| ensures !Revokes(ws[i], es[i], t) {
        RunsIssueHonestly(cfg, ws, es, i);
      }
    } else if Covers(cfg) {
      forall ws, es, i, j, t | IsRun(cfg, ws, es) && 0 <= i < j < |ws| && Revokes(ws[i], es[i], t) ensures !Accepted(ws[j], t) {
        RevokedStaysCovered(cfg, ws, es, i, j, t);
        CoveredIsNeverAccepted(ws[j], t);
      }
    } else {
      var kind := if Lifetime(cfg, Access) > ACCESS_EXPIRY_SECONDS then Access else Refresh;
      var ws, es, t := LongerLifetimesComeBack(cfg, kind);
    }
  }

  /** What logout revokes is the two texts it is given: every other text is accepted after it exactly as before. */
  lemma LogoutRevokesTexts(cfg: Settings, w: World, access: Token, refresh: Token, t: Token)
    requires t != access && t != refresh
    ensures Accepted(Next(cfg, w, Logout(access, refresh)), t) <==> Accepted(w, t)
  {
  }

  /** A refresh does not retire the token it was given: only logout revokes. */
  lemma RefreshDoesNotRotate(cfg: Settings, w: World, t: Token, active: bool)
    requires MayRefresh(w, t)
    ensures MayRefresh(Next(cfg, w, RefreshTokens(t, active)), t)
  {
  }

  /**
   The tokens of a fresh login are accepted exactly if their lifetime is positive and they are not blacklisted:
   a second login within the same second makes the very tokens of the first.
   */
  lemma LoginIsAcceptedExactly(cfg: Settings, w: World, subject: string)
    ensures var after := Next(cfg, w, Login(subject));
            && (PassesGuard(after, CreateToken(cfg, subject, Access, w.now)) <==>
                  cfg.accessExpireMinutes > 0 && !IsBlacklisted(w.blacklist, CreateToken(cfg, subject, Access, w.now), w.now))
            && (MayRefresh(after, CreateToken(cfg, subject, Refresh, w.now)) <==>
                  cfg.refreshExpireDays > 0 && !IsBlacklisted(w.blacklist, CreateToken(cfg, subject, Refresh, w.now), w.now))
  {
  }

  /**
   A refresh issues a pair for the token's own subject exactly if the token may be used and its user is active;
   the new tokens are accepted as those of a login are, and nothing is issued for anyone else.
   */
  lemma RefreshIsAcceptedExactly(cfg: Settings, w: World, t: Token, active: bool)
    ensures var after := Next(cfg, w, RefreshTokens(t, active));
            && (!active || !MayRefresh(w, t) ==> after == w)
            && (active && MayRefresh(w, t) ==>
                  var access := CreateToken(cfg, t.claims.subject, Access, w.now);
                  var refresh := CreateToken(cfg, t.claims.subject, Refresh, w.now);
                  && after.issued == w.issued + {access.claims, refresh.claims}
                  && access.claims.subject == refresh.claims.subject == t.claims.subject
                  && after.blacklist == w.blacklist && after.now == w.now
                  && (PassesGuard(after, access) <==> cfg.accessExpireMinutes > 0 && !IsBlacklisted(w.blacklist, access, w.now))
                  && (MayRefresh(after, refresh) <==> cfg.refreshExpireDays > 0 && !IsBlacklisted(w.blacklist, refresh, w.now)))
  {
    assert w.now.Floor as real <= w.now < (w.now.Floor + 1) as real;
  }

  /** Neither kind of token passes for the other. */
  lemma KindsAreKeptApart(w: World, t: Token)
    ensures PassesGuard(w, t) ==> t.Jwt? && t.claims.kind.Access? && !MayRefresh(w, t)
    ensures MayRefresh(w, t) ==> t.Jwt? && t.claims.kind.Refresh? && !PassesGuard(w, t)
  {
  }

  /** A logout needs an access token that passes the guard; without one it does nothing. */
  lemma UnguardedLogoutDoesNothing(cfg: Settings, w: World, access: Token, refresh: Token)
    ensures !PassesGuard(w, access) ==> Next(cfg, w, Logout(access, refresh)) == w
    ensures Next(cfg, w, Logout(access, refresh)).issued == w.issued
    ensures PassesGuard(w, access) && access != refresh ==>
              var after := Next(cfg, w, Logout(access, refresh)).blacklist;
              && IsBlacklisted(after, access, w.now + 899.0) && !IsBlacklisted(after, access, w.now + 900.0)
              && IsBlacklisted(after, refresh, w.now + 604799.0) && !IsBlacklisted(after, refresh, w.now + 604800.0)
  {
  }

  /** Logging out and in again within one second leaves the user with revoked tokens. */
  lemma QuickReturnIsRefused(cfg: Settings, w: World, subject: string, pause: real)
    requires cfg.accessExpireMinutes > 0 && 0.0 <= pause && (w.now + pause).Floor == w.now.Floor
    ensures var access, refresh := CreateToken(cfg, subject, Access, w.now), CreateToken(cfg, subject, Refresh, w.now);
            var in1 := Next(cfg, w, Login(subject));
            var in2 := Next(cfg, Next(cfg, Next(cfg, in1, Logout(access, refresh)), Wait(pause)), Login(subject));
            PassesGuard(in1, access) ==>
              !Accepted(in2, CreateToken(cfg, subject, Access, w.now + pause))
              && !Accepted(in2, CreateToken(cfg, subject, Refresh, w.now + pause))
  {
  }

  // ---------- the Redis blacklist and the use case over it ----------

  class TokenBlacklist {
    var entries: Blacklist

    constructor ()
      ensures entries == map[]
    {
      entries := map[];
    }

    method Blacklist(token: Token, expiresIn: nat, now: real)
      modifies this
      ensures entries == old(entries)[token := now + expiresIn as real]
    {
      entries := entries[token := now + expiresIn as real];
    }

    method Contains(token: Token, now: real) returns (found: bool)
      ensures found <==> IsBlacklisted(entries, token, now)
    {
      found := token in entries && now < entries[token];
    }

    /** LogoutUseCase: first the access token, then the refresh token. */
    method Logout(access: Token, refresh: Token, now: real)
      modifies this
      ensures entries == LoggedOut(old(entries), access, refresh, now)
    {
      Blacklist(access, ACCESS_EXPIRY_SECONDS, now);
      Blacklist(refresh, REFRESH_EXPIRY_SECONDS, now);
    }
  }
}
