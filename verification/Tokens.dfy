/**
  The signed tokens of auth_manager.h and the cache in front of their parser. The signature, the JSON printer and the
  JSON parser are parameters; base64 is the code's own.
*/
module Tokens {
  import opened Klines
  import opened Base64
  import opened Dots

  datatype Role = SuperAdmin | StrategyManager

  datatype TokenInfo = TokenInfo(username: string, role: Role, expiresAt: int)

  /** What a parsed payload holds; a missing field reads as its default. */
  datatype Fields = Fields(username: Option<string>, role: Option<string>, exp: Option<int>)

  /**
    What a token is made with: base64, hmac_sha256 under the manager's secret, the printed header, and the payload's
    printer and parser.
  */
  datatype Codec = Codec(
    encode: seq<byte> -> string,
    decode: string -> seq<byte>,
    hmac: string -> seq<byte>,
    header: seq<byte>,
    dump: (string, string, int, int) -> seq<byte>,
    parse: seq<byte> -> Option<Fields>)
  {
    /** The base64 of the token module. */
    ghost predicate UsesBase64() {
      && (forall s {:trigger Encode(s)} :: encode(s) == Encode(s))
      && (forall s {:trigger Decode(s)} :: decode(s) == Decode(s))
    }

    /** The JSON parser reads back what the printer wrote. */
    ghost predicate ReadsBack() {
      forall username, role, exp, iat {:trigger dump(username, role, exp, iat)} ::
        parse(dump(username, role, exp, iat)) == Some(Fields(Some(username), Some(role), Some(exp)))
    }

    /** What tokens need of their encoding: it can be undone, and it never makes a '.'. */
    ghost predicate Sound() {
      && ReadsBack()
      && (forall s {:trigger encode(s)} :: decode(encode(s)) == s && '.' !in encode(s))
    }
  }

  /** The code's own base64 is such an encoding. */
  lemma Base64IsSound(c: Codec)
    requires c.UsesBase64() && c.ReadsBack()
    ensures c.Sound()
  {
    forall s ensures c.decode(c.encode(s)) == s && '.' !in c.encode(s) {
      RoundTrip(s);
      NoDot(s);
      assert c.decode(Encode(s)) == Decode(Encode(s));
    }
  }

  function RoleToString(role: Role): string {
    match role
    case SuperAdmin => "SUPER_ADMIN"
    case StrategyManager => "STRATEGY_MANAGER"
  }

  function StringToRole(s: string): Role {
    if s == "SUPER_ADMIN" then SuperAdmin else StrategyManager
  }

  // ---------------------------------------------------------------------------------------------
  // Printing and parsing
  // ---------------------------------------------------------------------------------------------

  function Signature(c: Codec, header64: string, payload64: string): string {
    c.encode(c.hmac(header64 + "." + payload64))
  }

  function Assemble(header64: string, payload64: string, signature64: string): string {
    header64 + "." + payload64 + "." + signature64
  }

  function Signed(c: Codec, header64: string, payload64: string): string {
    Assemble(header64, payload64, Signature(c, header64, payload64))
  }

  function TokenOf(c: Codec, info: TokenInfo, iat: int): string {
    Signed(c, c.encode(c.header), c.encode(c.dump(info.username, RoleToString(info.role), info.expiresAt, iat)))
  }

  /** nlohmann's `value(key, fallback)`. */
  function ValueOr<T>(field: Option<T>, fallback: T): T {
    match field
    case None => fallback
    case Some(v) => v
  }

  function ReadPayload(c: Codec, payload64: string): Option<TokenInfo> {
    match c.parse(c.decode(payload64))
    case None => None
    case Some(f) =>
      Some(TokenInfo(
             ValueOr(f.username, ""), StringToRole(ValueOr(f.role, "STRATEGY_MANAGER")), ValueOr(f.exp, 0)))
  }

  lemma DotsInOrder(s: string)
    ensures FirstDot(s).Some? <==> LastDot(s).Some?
    ensures FirstDot(s).Some? ==> FirstDot(s).value <= LastDot(s).value
  {
  }

  /** What parse_token finds: the parts before the first dot, between, and after the last one. */
  function Parsed(c: Codec, token: string): Option<TokenInfo> {
    DotsInOrder(token);
    var first, last := FirstDot(token), LastDot(token);
    if first.None? || last.None? || first == last then None
    else
      var header64, payload64 := token[..first.value], token[first.value + 1..last.value];
      if token[last.value + 1..] != Signature(c, header64, payload64) then None
      else ReadPayload(c, payload64)
  }

  lemma DotsAt(s: string, first: nat, last: nat)
    requires first <= last < |s| && s[first] == '.' && s[last] == '.'
    requires forall k | 0 <= k < first || last < k < |s| :: s[k] != '.'
    ensures FirstDot(s) == Some(first) && LastDot(s) == Some(last)
  {
  }

  /** The first and the last dot split a token whose outer parts hold none; the middle part may hold any. */
  lemma Split(h: string, p: string, g: string)
    requires '.' !in h && '.' !in g
    ensures var t, first, last := Assemble(h, p, g), |h|, |h| + 1 + |p|;
      && FirstDot(t) == Some(first) && LastDot(t) == Some(last)
      && t[..first] == h && t[first + 1..last] == p && t[last + 1..] == g
  {
    var t := Assemble(h, p, g);
    assert t[..|h|] == h && t[|h| + 1..|h| + 1 + |p|] == p && t[|h| + 1 + |p| + 1..] == g;
    DotsAt(t, |h|, |h| + 1 + |p|);
  }

  lemma ParsedSigned(c: Codec, header64: string, payload64: string)
    requires c.Sound() && '.' !in header64
    ensures Parsed(c, Signed(c, header64, payload64)) == ReadPayload(c, payload64)
  {
    Split(header64, payload64, Signature(c, header64, payload64));
  }

  /** parse_token recovers user, role and expiry from every token generate_token makes. */
  lemma TokenRoundTrip(c: Codec, info: TokenInfo, iat: int)
    requires c.Sound()
    ensures Parsed(c, TokenOf(c, info, iat)) == Some(info)
  {
    var payload := c.dump(info.username, RoleToString(info.role), info.expiresAt, iat);
    ParsedSigned(c, c.encode(c.header), c.encode(payload));
  }

  ghost predicate SignedAs(c: Codec, token: string, header64: string, payload64: string) {
    '.' !in header64 && token == Signed(c, header64, payload64)
  }

  /** Exactly the correctly signed strings with a readable payload parse, whatever their header says. */
  lemma ParsesExactlySigned(c: Codec, token: string, info: TokenInfo)
    requires c.Sound()
    ensures Parsed(c, token) == Some(info)
      <==> exists h, p :: SignedAs(c, token, h, p) && ReadPayload(c, p) == Some(info)
  {
    if Parsed(c, token) == Some(info) {
      DotsInOrder(token);
      var first, last := FirstDot(token).value, LastDot(token).value;
      var h, p := token[..first], token[first + 1..last];
      Reassemble(token, first, last);
      assert SignedAs(c, token, h, p);
    }
    if h, p :| SignedAs(c, token, h, p) && ReadPayload(c, p) == Some(info) {
      ParsedSigned(c, h, p);
    }
  }

  lemma Reassemble(t: string, first: nat, last: nat)
    requires first < last < |t| && t[first] == '.' && t[last] == '.'
    ensures t == Assemble(t[..first], t[first + 1..last], t[last + 1..])
  {
  }

  /** The first and the last dot of a string, which are two different ones. */
  ghost predicate CutAt(token: string, first: int, last: int) {
    && 0 <= first < last < |token| && token[first] == '.' && token[last] == '.'
    && (forall k | 0 <= k < first || last < k < |token| :: token[k] != '.')
  }

  /** Signature and payload are where the dots put them, and the signature is that of all the text before it. */
  ghost predicate SignedCut(c: Codec, token: string, info: TokenInfo, first: int, last: int) {
    && CutAt(token, first, last)
    && token[last + 1..] == c.encode(c.hmac(token[..last]))
    && ReadPayload(c, token[first + 1..last]) == Some(info)
  }

  /**
    A string parses exactly when what stands behind its last dot is the encoded signature of everything in front of
    it, payload included, and what stands between its first and its last dot is a readable payload.
  */
  lemma SignatureCoversPayload(c: Codec, token: string, info: TokenInfo)
    ensures Parsed(c, token) == Some(info) <==> exists first, last :: SignedCut(c, token, info, first, last)
  {
    DotsInOrder(token);
    if Parsed(c, token) == Some(info) {
      var first, last := FirstDot(token).value, LastDot(token).value;
      TextBeforeSignature(token, first, last);
      assert SignedCut(c, token, info, first, last);
    }
    if first, last :| SignedCut(c, token, info, first, last) {
      DotsAt(token, first, last);
      TextBeforeSignature(token, first, last);
    }
  }

  lemma TextBeforeSignature(token: string, first: nat, last: nat)
    requires first < last < |token| && token[first] == '.'
    ensures token[..first] + "." + token[first + 1..last] == token[..last]
  {
  }

  /** A token is the encoded header and payload with a dot between, a dot, and the encoded signature of all that. */
  lemma TokenText(c: Codec, info: TokenInfo, iat: int)
    ensures
      var payload := c.dump(info.username, if info.role == SuperAdmin then "SUPER_ADMIN" else "STRATEGY_MANAGER",
                            info.expiresAt, iat);
      var text := c.encode(c.header) + "." + c.encode(payload);
      TokenOf(c, info, iat) == text + "." + c.encode(c.hmac(text))
  {
  }

  /** A payload gives the super administrator only under that name, and a missing expiry is long past. */
  lemma PayloadMeaning(c: Codec, payload64: string)
    ensures var fields, info := c.parse(c.decode(payload64)), ReadPayload(c, payload64);
      && (info.Some? <==> fields.Some?)
      && (info.Some? ==>
            && (info.value.role == SuperAdmin <==> fields.value.role == Some("SUPER_ADMIN"))
            && info.value.username == (if fields.value.username.Some? then fields.value.username.value else "")
            && info.value.expiresAt == (if fields.value.exp.Some? then fields.value.exp.value else 0))
  {
  }

  // ---------------------------------------------------------------------------------------------
  // The cache over whole runs
  // ---------------------------------------------------------------------------------------------

  /** active_tokens_, revoked_tokens_ and token_expiry_hours_. */
  datatype State = State(active: map<string, TokenInfo>, revoked: set<string>, hours: int)

  const INITIAL := State(map[], {}, 24)

  /** The calls that touch the token state; `now` and `iat` are the clock readings they make. */
  datatype Call =
    | SetTokenExpiry(hours: int)
    | GenerateToken(username: string, role: Role, now: int, iat: int)
    | VerifyToken(token: string, now: int)
    | Logout(token: string)
    | InvalidateUserTokens(username: string)

  function Wrap32(x: int): int {
    (x + 0x8000_0000) % 0x1_0000_0000 - 0x8000_0000
  }

  /** `token_expiry_hours_ * 3600 * 1000`, computed in int. */
  function Lifetime(hours: int): int {
    Wrap32(Wrap32(hours * 3600) * 1000)
  }

  /**
    The lifetime is the configured one only below 597 hours; from there on it is the 32-bit number that differs from
    it by a multiple of 2^32.
  */
  lemma LifetimeIsExact(hours: int)
    ensures Lifetime(hours) == hours * 3_600_000 <==> -597 < hours < 597
    ensures -0x8000_0000 <= Lifetime(hours) < 0x8000_0000
    ensures (Lifetime(hours) - hours * 3_600_000) % 0x1_0000_0000 == 0
  {
    var j := WrapMeaning(hours * 3600);
    var k := WrapMeaning(Wrap32(hours * 3600) * 1000);
    assert Lifetime(hours) - hours * 3_600_000 == (1000 * j + k) * 0x1_0000_0000;
  }

  lemma WrapMeaning(x: int) returns (k: int)
    ensures Wrap32(x) == x + k * 0x1_0000_0000 && -0x8000_0000 <= Wrap32(x) < 0x8000_0000
  {
    k := -((x + 0x8000_0000) / 0x1_0000_0000);
  }

  function Issued(s: State, username: string, role: Role, now: int): TokenInfo {
    TokenInfo(username, role, now + Lifetime(s.hours))
  }

  function Without(active: map<string, TokenInfo>, username: string): map<string, TokenInfo> {
    map t | t in active && active[t].username != username :: active[t]
  }

  /** How far the erase loop is: of the entries visited, those of the user are gone, and all others are as before. */
  ghost predicate Erased(before: map<string, TokenInfo>, now: map<string, TokenInfo>, unvisited: set<string>,
      username: string)
  {
    && unvisited <= now.Keys <= before.Keys
    && (forall t | t in now :: now[t] == before[t])
    && (forall t | t in before :: t in now <==> t in unvisited || before[t].username != username)
  }

  lemma Visit(before: map<string, TokenInfo>, now: map<string, TokenInfo>, unvisited: set<string>, username: string,
      t: string)
    requires Erased(before, now, unvisited, username) && t in unvisited
    ensures Erased(before, if now[t].username == username then now - {t} else now, unvisited - {t}, username)
  {
  }

  lemma AllVisited(before: map<string, TokenInfo>, now: map<string, TokenInfo>, username: string)
    requires Erased(before, now, {}, username)
    ensures now == Without(before, username)
    ensures forall t :: t in now <==> t in before && before[t].username != username
    ensures forall t | t in now :: now[t] == before[t]
  {
  }

  function After(c: Codec, s: State, call: Call): State {
    match call
    case SetTokenExpiry(hours) => s.(hours := hours)
    case GenerateToken(username, role, now, iat) =>
      var info := Issued(s, username, role, now);
      s.(active := s.active[TokenOf(c, info, iat) := info])
    case VerifyToken(token, now) =>
      if token in s.revoked then s
      else if token in s.active then
        if s.active[token].expiresAt > now then s else s.(active := s.active - {token})
      else if Parsed(c, token).None? || Parsed(c, token).value.expiresAt <= now then s
      else s.(active := s.active[token := Parsed(c, token).value])
    case Logout(token) => s.(active := s.active - {token}, revoked := s.revoked + {token})
    case InvalidateUserTokens(username) => s.(active := Without(s.active, username))
  }

  /** What verify_token answers in state `s`; None when it returns false. */
  function Answer(c: Codec, s: State, token: string, now: int): Option<TokenInfo> {
    if token in s.revoked then None
    else if token in s.active then Live(Some(s.active[token]), now)
    else Live(Parsed(c, token), now)
  }

  function Live(info: Option<TokenInfo>, now: int): Option<TokenInfo> {
    if info.Some? && info.value.expiresAt > now then info else None
  }

  function Run(c: Codec, calls: seq<Call>): State {
    if calls == [] then INITIAL else After(c, Run(c, calls[..|calls| - 1]), calls[|calls| - 1])
  }

  ghost predicate CacheAgrees(c: Codec, s: State) {
    forall t | t in s.active :: Parsed(c, t) == Some(s.active[t])
  }

  /** Every call keeps each cached entry equal to what the parser returns for that token. */
  lemma StepKeepsCache(c: Codec, s: State, call: Call)
    requires c.Sound() && CacheAgrees(c, s)
    ensures CacheAgrees(c, After(c, s, call))
  {
    match call
    case GenerateToken(username, role, now, iat) => TokenRoundTrip(c, Issued(s, username, role, now), iat);
    case _ =>
  }

  lemma {:induction false} RunKeepsCache(c: Codec, calls: seq<Call>)
    requires c.Sound()
    ensures CacheAgrees(c, Run(c, calls))
  {
    if calls != [] {
      RunKeepsCache(c, calls[..|calls| - 1]);
      StepKeepsCache(c, Run(c, calls[..|calls| - 1]), calls[|calls| - 1]);
    }
  }

  lemma {:induction false} RevokedAreLoggedOut(c: Codec, calls: seq<Call>, token: string)
    ensures token in Run(c, calls).revoked <==> Logout(token) in calls
  {
    if calls != [] {
      RevokedAreLoggedOut(c, calls[..|calls| - 1], token);
      assert calls == calls[..|calls| - 1] + [calls[|calls| - 1]];
    }
  }

  /**
    After any calls, verify_token answers as if there were no cache: a token is accepted exactly when it was never
    logged out, parses, and has not expired.
  */
  lemma VerifyIgnoresCache(c: Codec, calls: seq<Call>, token: string, now: int)
    requires c.Sound()
    ensures Answer(c, Run(c, calls), token, now) == if Logout(token) in calls then None else Live(Parsed(c, token), now)
  {
    RunKeepsCache(c, calls);
    RevokedAreLoggedOut(c, calls, token);
  }

  /**
    The token a login issues is accepted from then on, with its user and role, until its lifetime is over or it is
    logged out; no other call, in whatever number and order, changes that.
  */
  lemma IssuedTokenIsGood(
    c: Codec, before: seq<Call>, after: seq<Call>, username: string, role: Role, issued: int, iat: int, now: int)
    requires c.Sound()
    ensures
      var info := Issued(Run(c, before), username, role, issued);
      var token := TokenOf(c, info, iat);
      var calls := before + [GenerateToken(username, role, issued, iat)] + after;
      Answer(c, Run(c, calls), token, now) ==
        if Logout(token) in calls || now >= issued + Lifetime(Run(c, before).hours) then None else Some(info)
  {
    var info := Issued(Run(c, before), username, role, issued);
    var calls := before + [GenerateToken(username, role, issued, iat)] + after;
    TokenRoundTrip(c, info, iat);
    VerifyIgnoresCache(c, calls, TokenOf(c, info, iat), now);
  }

  /** Dropping a user's cached tokens changes no answer: an uncached token is parsed again. */
  lemma InvalidationChangesNoAnswer(c: Codec, calls: seq<Call>, username: string, token: string, now: int)
    requires c.Sound()
    ensures Answer(c, Run(c, calls + [InvalidateUserTokens(username)]), token, now)
      == Answer(c, Run(c, calls), token, now)
  {
    VerifyIgnoresCache(c, calls, token, now);
    VerifyIgnoresCache(c, calls + [InvalidateUserTokens(username)], token, now);
  }

  // ---------------------------------------------------------------------------------------------
  // The class
  // ---------------------------------------------------------------------------------------------

  /** The token part of AuthManager. */
  class AuthManager {
    const codec: Codec
    var activeTokens: map<string, TokenInfo>
    var revokedTokens: set<string>
    var tokenExpiryHours: int

    ghost function Current(): State
      reads this
    {
      State(activeTokens, revokedTokens, tokenExpiryHours)
    }

    ghost predicate Valid()
      reads this
    {
      codec.UsesBase64() && codec.Sound() && CacheAgrees(codec, Current())
    }

    constructor (codec: Codec)
      requires codec.UsesBase64() && codec.ReadsBack()
      ensures Valid() && this.codec == codec && Current() == INITIAL
    {
      this.codec := codec;
      activeTokens, revokedTokens, tokenExpiryHours := map[], {}, 24;
      Base64IsSound(codec);
    }

    method Base64Encode(input: seq<byte>) returns (result: string)
      requires Valid()
      ensures result == codec.encode(input)
    {
      result := EncodeAccumulating(input);
    }

    method Base64Decode(input: string) returns (result: seq<byte>)
      requires Valid()
      ensures result == codec.decode(input)
    {
      result := DecodeAccumulating(input);
    }

    method SetTokenExpiry(hours: int)
      requires Valid()
      modifies this`tokenExpiryHours
      ensures Valid() && Current() == After(codec, old(Current()), Call.SetTokenExpiry(hours))
    {
      tokenExpiryHours := hours;
    }

    method GenerateToken(username: string, role: Role, now: int, iat: int) returns (token: string)
      requires Valid()
      modifies this`activeTokens
      ensures Valid() && Current() == After(codec, old(Current()), Call.GenerateToken(username, role, now, iat))
      ensures token == TokenOf(codec, Issued(old(Current()), username, role, now), iat)
      ensures token in activeTokens && activeTokens[token].username == username && activeTokens[token].role == role
      ensures activeTokens[token].expiresAt == now + Lifetime(tokenExpiryHours)
      ensures activeTokens - {token} == old(activeTokens) - {token}
    {
      ghost var next := After(codec, Current(), Call.GenerateToken(username, role, now, iat));
      StepKeepsCache(codec, Current(), Call.GenerateToken(username, role, now, iat));
      var expires := now + Lifetime(tokenExpiryHours);
      var info := TokenInfo(username, role, expires);
      assert info == Issued(Current(), username, role, now);
      token := SignToken(info, iat);
      activeTokens := activeTokens[token := info];
      assert Current() == next;
    }

    method SignToken(info: TokenInfo, iat: int) returns (token: string)
      requires Valid()
      ensures token == TokenOf(codec, info, iat)
    {
      var header64 := Base64Encode(codec.header);
      var payload64 := Base64Encode(codec.dump(info.username, RoleToString(info.role), info.expiresAt, iat));
      var signature64 := Base64Encode(codec.hmac(header64 + "." + payload64));
      token := header64 + "." + payload64 + "." + signature64;
    }

    method ParseToken(token: string) returns (info: Option<TokenInfo>)
      requires Valid()
      ensures info == Parsed(codec, token)
    {
      DotsInOrder(token);
      var pos1, pos2 := FirstDot(token), LastDot(token);
      if pos1.None? || pos2.None? || pos1 == pos2 {
        return None;
      }
      var header64 := token[..pos1.value];
      var payload64 := token[pos1.value + 1..pos2.value];
      var signature64 := token[pos2.value + 1..];
      var expected := Base64Encode(codec.hmac(header64 + "." + payload64));
      if signature64 != expected {
        return None;
      }
      var payload := Base64Decode(payload64);
      match codec.parse(payload)
      case None => return None;
      case Some(f) =>
        return Some(TokenInfo(
                      ValueOr(f.username, ""), StringToRole(ValueOr(f.role, "STRATEGY_MANAGER")), ValueOr(f.exp, 0)));
    }

    method VerifyToken(token: string, now: int) returns (info: Option<TokenInfo>)
      requires Valid()
      modifies this`activeTokens
      ensures Valid() && Current() == After(codec, old(Current()), Call.VerifyToken(token, now))
      ensures info == Answer(codec, old(Current()), token, now)
      ensures info == if token in revokedTokens then None else Live(Parsed(codec, token), now)
      ensures info.Some? ==> info.value.expiresAt > now && token in activeTokens && activeTokens[token] == info.value
      ensures token !in revokedTokens && info.None? ==> token !in activeTokens
      ensures activeTokens - {token} == old(activeTokens) - {token}
    {
      StepKeepsCache(codec, Current(), Call.VerifyToken(token, now));
      if token in revokedTokens {
        return None;
      }
      if token in activeTokens {
        if activeTokens[token].expiresAt > now {
          return Some(activeTokens[token]);
        }
        activeTokens := activeTokens - {token};
        return None;
      }
      info := ParseToken(token);
      if info.None? || info.value.expiresAt <= now {
        return None;
      }
      activeTokens := activeTokens[token := info.value];
    }

    method Logout(token: string)
      requires Valid()
      modifies this`activeTokens, this`revokedTokens
      ensures Valid() && Current() == After(codec, old(Current()), Call.Logout(token))
      ensures activeTokens == old(activeTokens) - {token} && revokedTokens == old(revokedTokens) + {token}
    {
      activeTokens := activeTokens - {token};
      revokedTokens := revokedTokens + {token};
    }

    /** The erase loop over the cache, in whatever order the hash map has. */
    method InvalidateUserTokens(username: string)
      requires Valid()
      modifies this`activeTokens
      ensures Valid() && Current() == After(codec, old(Current()), Call.InvalidateUserTokens(username))
      ensures forall t :: t in activeTokens <==> t in old(activeTokens) && old(activeTokens)[t].username != username
      ensures forall t | t in activeTokens :: activeTokens[t] == old(activeTokens)[t]
    {
      var unvisited := activeTokens.Keys;
      while unvisited != {}
        invariant Erased(old(activeTokens), activeTokens, unvisited, username)
        decreases unvisited
      {
        var t :| t in unvisited;
        Visit(old(activeTokens), activeTokens, unvisited, username, t);
        unvisited := unvisited - {t};
        if activeTokens[t].username == username {
          activeTokens := activeTokens - {t};
        }
      }
      AllVisited(old(activeTokens), activeTokens, username);
    }
  }
}
