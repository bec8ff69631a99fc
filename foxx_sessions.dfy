/**
 * The option normalisation done by the constructor of Foxx's `Sessions`
 * (js/server/modules/org/arangodb/foxx/sessions.js). The constructor takes a
 * dynamically typed options record, rewrites it field by field, may throw on
 * malformed options, and keeps the rewritten record as its configuration.
 */
module FoxxSessions {
  import opened Common
  import opened JsValues

  /** The errors the constructor throws (the message of each is noted beside it). */
  datatype SessionError =
    | UnsupportedType          // 'Only the following session types are supported at this time: cookie, header'
    | CookieSettingsInvalid    // 'Expected cookie settings to be an object, boolean or string.'
    | CookieNameNotString      // 'Cookie name must be a string or empty.'
    | CookieSecretNotString    // 'Cookie secret must be a string or empty.'
    | HeaderNameInvalid        // 'Header name must be true, a string or empty.'
    | JwtSettingsInvalid       // 'Expected JWT settings to be an object, boolean or string.'
    | JwtSecretRequired        // 'Must provide a JWT secret to use any algorithm other than "none".'
    | JwtSecretNotString       // 'Header JWT secret must be a string or empty.'
    | AlgorithmRejected        // thrown by crypto.jwtCanonicalAlgorithmName
    | TypeError                // strict mode: writing a property of a primitive value

  const SessionTypes: seq<string> := ["cookie", "header"]
  const DefaultCookieName := "sid"
  const DefaultHeaderName := "X-Session-Id"
  const DefaultJwtAlgorithm := "HS256"
  const DefaultSessionStorage := "/_system/sessions"

  /** The record the constructor works on: `opts`, or `{}` when `opts` is falsy. */
  function Input(opts: JsValue): JsValue {
    if Truthy(opts) then opts else Obj(map[])
  }

  /** The cookie option once the deprecated `type: 'cookie'` / `type: 'header'` has been applied. */
  function CookieOption(o: JsValue): JsValue {
    var t := Get(o, "type");
    if t == Str("cookie") then Or(Get(o, "cookie"), Bool(true))
    else if t == Str("header") then Undefined
    else Get(o, "cookie")
  }

  /** The header option once the deprecated `type` option has been applied. */
  function HeaderOption(o: JsValue): JsValue {
    var t := Get(o, "type");
    if t == Str("header") then Or(Get(o, "header"), Bool(true))
    else if t == Str("cookie") then Undefined
    else Get(o, "header")
  }

  /** The settings object a truthy cookie or JWT option stands for, before defaults are filled in. */
  function SettingsObject(v: JsValue, stringField: string): JsValue {
    if v == Bool(true) then Obj(map[])
    else if v.Str? then Singleton(stringField, v)
    else v
  }

  /** Whether a truthy cookie or JWT option has an accepted shape: `true`, a string or an object. */
  predicate AcceptedSettings(v: JsValue) {
    v == Bool(true) || v.Str? || TypeOf(v) == "object"
  }

  /** The cookie settings a truthy, accepted cookie option becomes: its settings object with the name defaulted. */
  function NormalisedCookie(c: JsValue): JsValue {
    var s := SettingsObject(c, "name");
    if s.IsObject() && !Truthy(Get(s, "name")) then Put(s, "name", Str(DefaultCookieName)) else s
  }

  /** Whether the deprecated `type` option names a session type other than `'cookie'` and `'header'`. */
  predicate UnsupportedTypeOption(o: JsValue) {
    var t := Get(o, "type");
    Truthy(t) && t != Str("cookie") && t != Str("header")
  }

  /** The error a cookie option `c` is rejected with, checked in the order shape, name, secret. */
  function CookieFailure(c: JsValue): Option<SessionError> {
    var s := SettingsObject(c, "name");
    var name, secret := Get(s, "name"), Get(s, "secret");
    if !Truthy(c) then None
    else if !AcceptedSettings(c) then Some(CookieSettingsInvalid)
    else if Truthy(name) && !name.Str? then Some(CookieNameNotString)
    else if Truthy(secret) && !secret.Str? then Some(CookieSecretNotString)
    else None
  }

  /** Whether a header option `h` is rejected: truthy, but neither `true` nor a string. */
  predicate HeaderFailure(h: JsValue) {
    Truthy(h) && h != Bool(true) && !h.Str?
  }

  /** The error a JWT option `j` is rejected with: its shape, then what its settings object fails on. */
  function JwtFailure(j: JsValue, canonicalAlgorithmName: JsValue -> Option<JsValue>): Option<SessionError> {
    if !Truthy(j) then None
    else if !AcceptedSettings(j) then Some(JwtSettingsInvalid)
    else match JwtSettingsOf(SettingsObject(j, "secret"), canonicalAlgorithmName)
      case Err(e) => Some(e)
      case Ok(_) => None
  }

  /** Reading any property other than those in `names` gives the same value in `a` and `b`. */
  ghost predicate SameExcept(a: JsValue, b: JsValue, names: set<string>) {
    forall k :: k !in names ==> Get(a, k) == Get(b, k)
  }

  /** The option names the constructor reads or writes. */
  const HandledNames: set<string> :=
    {"type", "cookie", "header", "jwt", "autoCreateSession", "sessionStorage"}

  /** The deprecated `type` option: `'cookie'` drops the header, `'header'` drops the cookie. */
  method ApplyType(o: JsValue) returns (r: Result<JsValue, SessionError>)
    ensures var t := Get(o, "type");
            r.Err? <==> Truthy(t) && t != Str("cookie") && t != Str("header")
    ensures r.Err? ==> r.error == UnsupportedType
    ensures r.Ok? ==> Get(r.value, "cookie") == CookieOption(o) && Get(r.value, "header") == HeaderOption(o)
    ensures r.Ok? && Get(o, "type") == Str("cookie") ==> !HasOwn(r.value, "header")
    ensures r.Ok? && Get(o, "type") == Str("header") ==> !HasOwn(r.value, "cookie")
    ensures r.Ok? ==> r.value.IsObject() == o.IsObject()
    ensures r.Ok? ==> forall k :: k != "cookie" && k != "header" ==> Get(r.value, k) == Get(o, k)
  {
    var t := Get(o, "type");
    if Truthy(t) {
      if t == Str("cookie") {
        var o' := Delete(o, "header");
        o' := Put(o', "cookie", Or(Get(o', "cookie"), Bool(true)));
        return Ok(o');
      } else if t == Str("header") {
        var o' := Delete(o, "cookie");
        o' := Put(o', "header", Or(Get(o', "header"), Bool(true)));
        return Ok(o');
      } else {
        return Err(UnsupportedType);
      }
    }
    return Ok(o);
  }

  /**
   * The cookie option: `true` becomes `{}`, a string `s` becomes `{name: s}`,
   * a missing name becomes `'sid'`; a name or secret that is not a string throws.
   */
  method NormaliseCookie(o: JsValue) returns (r: Result<JsValue, SessionError>)
    ensures !Truthy(Get(o, "cookie")) ==> r == Ok(o)
    ensures var c := Get(o, "cookie");
            Truthy(c) && !AcceptedSettings(c) ==> r == Err(CookieSettingsInvalid)
    ensures var c := Get(o, "cookie");
            var s := SettingsObject(c, "name");
            Truthy(c) && AcceptedSettings(c) ==>
              var name, secret := Get(s, "name"), Get(s, "secret");
              && (Truthy(name) && !name.Str? ==> r == Err(CookieNameNotString))
              && ((Truthy(name) ==> name.Str?) && Truthy(secret) && !secret.Str? ==> r == Err(CookieSecretNotString))
              && ((Truthy(name) ==> name.Str?) && (Truthy(secret) ==> secret.Str?) ==>
                    r.Ok? && Get(r.value, "cookie") == NormalisedCookie(c))
    ensures r.Ok? && Truthy(Get(o, "cookie")) ==>
              var c := Get(r.value, "cookie");
              c.IsObject() && Get(c, "name").Str? && Truthy(Get(c, "name"))
              && (Truthy(Get(c, "secret")) ==> Get(c, "secret").Str?)
    ensures r.Err? <==> CookieFailure(Get(o, "cookie")).Some?
    ensures r.Err? ==> r.error == CookieFailure(Get(o, "cookie")).value
    ensures r.Ok? ==> r.value.IsObject() == o.IsObject()
    ensures r.Ok? ==> forall k :: k != "cookie" ==> Get(r.value, k) == Get(o, k) && HasOwn(r.value, k) == HasOwn(o, k)
  {
    var cookie := Get(o, "cookie");
    if !Truthy(cookie) {
      return Ok(o);
    }
    var o' := o;
    if cookie == Bool(true) {
      cookie := Obj(map[]);
      o' := Put(o', "cookie", cookie);
    } else if cookie.Str? {
      cookie := Singleton("name", cookie);
      o' := Put(o', "cookie", cookie);
    } else if TypeOf(cookie) != "object" {
      return Err(CookieSettingsInvalid);
    }
    var name := Get(cookie, "name");
    if !Truthy(name) {
      cookie := Put(cookie, "name", Str(DefaultCookieName));
      o' := Put(o', "cookie", cookie);
    } else if !name.Str? {
      return Err(CookieNameNotString);
    }
    var secret := Get(cookie, "secret");
    if Truthy(secret) && !secret.Str? {
      return Err(CookieSecretNotString);
    }
    return Ok(o');
  }

  /** The header option: `true` becomes `'X-Session-Id'`; any other value that is not a string throws. */
  method NormaliseHeader(o: JsValue) returns (r: Result<JsValue, SessionError>)
    ensures var h := Get(o, "header");
            r.Err? <==> Truthy(h) && h != Bool(true) && !h.Str?
    ensures r.Err? ==> r.error == HeaderNameInvalid
    ensures var h := Get(o, "header");
            r.Ok? ==> Get(r.value, "header") == if h == Bool(true) then Str(DefaultHeaderName) else h
    ensures r.Ok? && Truthy(Get(o, "header")) ==> Get(r.value, "header").Str?
    ensures r.Ok? ==> r.value.IsObject() == o.IsObject()
    ensures r.Ok? ==> forall k :: k != "header" ==> Get(r.value, k) == Get(o, k) && HasOwn(r.value, k) == HasOwn(o, k)
  {
    var header := Get(o, "header");
    if Truthy(header) {
      if header == Bool(true) {
        return Ok(Put(o, "header", Str(DefaultHeaderName)));
      } else if !header.Str? {
        return Err(HeaderNameInvalid);
      }
    }
    return Ok(o);
  }

  /**
   * The deprecated JWT option: `true` becomes `{}` and a string `s` becomes
   * `{secret: s}`, then its settings are filled in as `JwtSettings` does;
   * any other value that is not an object throws.
   */
  method NormaliseJwt(o: JsValue, canonicalAlgorithmName: JsValue -> Option<JsValue>)
    returns (r: Result<JsValue, SessionError>)
    ensures !Truthy(Get(o, "jwt")) ==> r == Ok(o)
    ensures var j := Get(o, "jwt");
            Truthy(j) && !AcceptedSettings(j) ==> r == Err(JwtSettingsInvalid)
    ensures var j := Get(o, "jwt");
            Truthy(j) && AcceptedSettings(j) ==>
              match JwtSettingsOf(SettingsObject(j, "secret"), canonicalAlgorithmName)
              case Err(e) => r == Err(e)
              case Ok(out) => r.Ok? && Get(r.value, "jwt") == out
    ensures r.Err? <==> JwtFailure(Get(o, "jwt"), canonicalAlgorithmName).Some?
    ensures r.Err? ==> r.error == JwtFailure(Get(o, "jwt"), canonicalAlgorithmName).value
    ensures r.Ok? ==> r.value.IsObject() == o.IsObject()
    ensures r.Ok? ==> forall k :: k != "jwt" ==> Get(r.value, k) == Get(o, k) && HasOwn(r.value, k) == HasOwn(o, k)
  {
    var jwt := Get(o, "jwt");
    if !Truthy(jwt) {
      return Ok(o);
    }
    if jwt == Bool(true) {
      jwt := Obj(map[]);
    } else if jwt.Str? {
      jwt := Singleton("secret", jwt);
    } else if TypeOf(jwt) != "object" {
      return Err(JwtSettingsInvalid);
    }
    var settings := JwtSettings(jwt, canonicalAlgorithmName);
    if settings.Err? {
      return Err(settings.error);
    }
    return Ok(Put(o, "jwt", settings.value));
  }

  /**
   * The JWT settings object `s` filled in: `verify` is true unless
   * explicitly false; without a secret the secret becomes `''` and the
   * algorithm `'none'` (any other algorithm throws); with a string secret a
   * missing algorithm becomes `'HS256'` and a given one is canonicalised by
   * `canonicalAlgorithmName`, which stands for
   * `crypto.jwtCanonicalAlgorithmName` (`None`: it threw).
   */
  method JwtSettings(s: JsValue, canonicalAlgorithmName: JsValue -> Option<JsValue>)
    returns (r: Result<JsValue, SessionError>)
    requires s.IsObject()
    ensures r == JwtSettingsOf(s, canonicalAlgorithmName)
  {
    var jwt := s;
    if Get(jwt, "verify") != Bool(false) {
      jwt := Put(jwt, "verify", Bool(true));
    }
    if !Truthy(Get(jwt, "secret")) {
      jwt := Put(jwt, "secret", Str(""));
      var algorithm := Get(jwt, "algorithm");
      if !Truthy(algorithm) {
        jwt := Put(jwt, "algorithm", Str("none"));
      } else if algorithm != Str("none") {
        return Err(JwtSecretRequired);
      }
    } else {
      if !Get(jwt, "secret").Str? {
        return Err(JwtSecretNotString);
      }
      var algorithm := Get(jwt, "algorithm");
      if !Truthy(algorithm) {
        jwt := Put(jwt, "algorithm", Str(DefaultJwtAlgorithm));
      } else {
        var canonical := canonicalAlgorithmName(algorithm);
        if canonical.None? {
          return Err(AlgorithmRejected);
        }
        jwt := Put(jwt, "algorithm", canonical.value);
      }
    }
    return Ok(jwt);
  }

  /**
   * What the JWT settings `s` become: the errors for a missing secret with
   * an algorithm other than `'none'`, a secret that is not a string, and an
   * algorithm the canonicaliser rejects; otherwise `s` with `verify`,
   * `secret` and `algorithm` set as described at `JwtSettings`.
   */
  function JwtSettingsOf(s: JsValue, canonicalAlgorithmName: JsValue -> Option<JsValue>): (r: Result<JsValue, SessionError>)
    requires s.IsObject()
    ensures var secret, algorithm := Get(s, "secret"), Get(s, "algorithm");
            && (r.Err? <==>
                  || (!Truthy(secret) && Truthy(algorithm) && algorithm != Str("none"))
                  || (Truthy(secret) && !secret.Str?)
                  || (Truthy(secret) && secret.Str? && Truthy(algorithm) && canonicalAlgorithmName(algorithm).None?))
            && (!Truthy(secret) && Truthy(algorithm) && algorithm != Str("none") ==> r == Err(JwtSecretRequired))
            && (Truthy(secret) && !secret.Str? ==> r == Err(JwtSecretNotString))
            && (Truthy(secret) && secret.Str? && Truthy(algorithm) && canonicalAlgorithmName(algorithm).None? ==>
                  r == Err(AlgorithmRejected))
    ensures r.Ok? ==>
              var out, secret, algorithm := r.value, Get(s, "secret"), Get(s, "algorithm");
              && out.IsObject()
              && Get(out, "verify") == Bool(Get(s, "verify") != Bool(false))
              && (!Truthy(secret) ==> Get(out, "secret") == Str("") && Get(out, "algorithm") == Str("none"))
              && (Truthy(secret) ==>
                    Get(out, "secret") == secret && secret.Str?
                    && Get(out, "algorithm")
                         == if Truthy(algorithm) then canonicalAlgorithmName(algorithm).value else Str(DefaultJwtAlgorithm))
              && forall k :: k !in {"verify", "secret", "algorithm"} ==> Get(out, k) == Get(s, k)
  {
    var secret, algorithm := Get(s, "secret"), Get(s, "algorithm");
    var verified := if Get(s, "verify") != Bool(false) then Put(s, "verify", Bool(true)) else s;
    if !Truthy(secret) then
      if Truthy(algorithm) && algorithm != Str("none") then Err(JwtSecretRequired)
      else
        var blank := Put(verified, "secret", Str(""));
        Ok(if Truthy(algorithm) then blank else Put(blank, "algorithm", Str("none")))
    else if !secret.Str? then Err(JwtSecretNotString)
    else if !Truthy(algorithm) then Ok(Put(verified, "algorithm", Str(DefaultJwtAlgorithm)))
    else match canonicalAlgorithmName(algorithm)
      case None => Err(AlgorithmRejected)
      case Some(a) => Ok(Put(verified, "algorithm", a))
  }

  /**
   * `autoCreateSession` is true unless explicitly false; a missing
   * `sessionStorage` becomes `sessionStorageApp` if that is given, else
   * `'/_system/sessions'`. Writing the first default into a primitive throws.
   */
  method ApplyDefaults(o: JsValue) returns (r: Result<JsValue, SessionError>)
    ensures r.Err? <==> !o.IsObject() && Get(o, "autoCreateSession") != Bool(false)
    ensures r.Err? ==> r.error == TypeError
    ensures r.Ok? ==> r.value.IsObject()
    ensures r.Ok? ==> Get(r.value, "autoCreateSession") == Bool(Get(o, "autoCreateSession") != Bool(false))
    ensures r.Ok? ==>
              Get(r.value, "sessionStorage")
                == if Truthy(Get(o, "sessionStorage")) then Get(o, "sessionStorage")
                   else if Truthy(Get(o, "sessionStorageApp")) then Get(o, "sessionStorageApp")
                   else Str(DefaultSessionStorage)
    ensures r.Ok? ==> forall k :: k != "autoCreateSession" && k != "sessionStorage" ==> Get(r.value, k) == Get(o, k)
  {
    var o' := o;
    if Get(o', "autoCreateSession") != Bool(false) {
      if !o'.IsObject() {
        return Err(TypeError);
      }
      o' := Put(o', "autoCreateSession", Bool(true));
    }
    if !Truthy(Get(o', "sessionStorage")) {
      if Truthy(Get(o', "sessionStorageApp")) {
        o' := Put(o', "sessionStorage", Get(o', "sessionStorageApp"));
      } else {
        o' := Put(o', "sessionStorage", Str(DefaultSessionStorage));
      }
    }
    return Ok(o');
  }

  /** The four rewriting steps, each writing only its own options, together write only the cookie, header and JWT options. */
  lemma RewriteFramed(o0: JsValue, o1: JsValue, o2: JsValue, o3: JsValue, o4: JsValue)
    requires forall k :: k != "cookie" && k != "header" ==> Get(o1, k) == Get(o0, k)
    requires forall k :: k != "cookie" ==> Get(o2, k) == Get(o1, k)
    requires forall k :: k != "header" ==> Get(o3, k) == Get(o2, k)
    requires forall k :: k != "jwt" ==> Get(o4, k) == Get(o3, k)
    ensures forall k :: k != "cookie" && k != "header" && k != "jwt" ==> Get(o4, k) == Get(o0, k)
  {
  }

  /**
   * The rewriting of the `type`, `cookie`, `header` and `jwt` options, in the
   * source's order; the first option rejected decides the error.
   */
  method RewriteOptions(o: JsValue, canonicalAlgorithmName: JsValue -> Option<JsValue>)
    returns (r: Result<JsValue, SessionError>)
    ensures r.Err? <==>
              || UnsupportedTypeOption(o)
              || CookieFailure(CookieOption(o)).Some?
              || HeaderFailure(HeaderOption(o))
              || JwtFailure(Get(o, "jwt"), canonicalAlgorithmName).Some?
    ensures UnsupportedTypeOption(o) ==> r == Err(UnsupportedType)
    ensures !UnsupportedTypeOption(o) && CookieFailure(CookieOption(o)).Some? ==>
              r == Err(CookieFailure(CookieOption(o)).value)
    ensures !UnsupportedTypeOption(o) && CookieFailure(CookieOption(o)).None? && HeaderFailure(HeaderOption(o)) ==>
              r == Err(HeaderNameInvalid)
    ensures && !UnsupportedTypeOption(o) && CookieFailure(CookieOption(o)).None? && !HeaderFailure(HeaderOption(o))
            && JwtFailure(Get(o, "jwt"), canonicalAlgorithmName).Some?
            ==> r == Err(JwtFailure(Get(o, "jwt"), canonicalAlgorithmName).value)
    ensures r.Ok? ==> r.value.IsObject() == o.IsObject()
    ensures var c := CookieOption(o);
            r.Ok? ==> Get(r.value, "cookie") == if Truthy(c) then NormalisedCookie(c) else c
    ensures var h := HeaderOption(o);
            r.Ok? ==> Get(r.value, "header") == if h == Bool(true) then Str(DefaultHeaderName) else h
    ensures r.Ok? && !Truthy(Get(o, "jwt")) ==> Get(r.value, "jwt") == Get(o, "jwt")
    ensures r.Ok? && Truthy(Get(o, "jwt")) ==>
              var s := SettingsObject(Get(o, "jwt"), "secret");
              && AcceptedSettings(Get(o, "jwt")) && JwtSettingsOf(s, canonicalAlgorithmName).Ok?
              && Get(r.value, "jwt") == JwtSettingsOf(s, canonicalAlgorithmName).value
    ensures r.Ok? ==> forall k :: k != "cookie" && k != "header" && k != "jwt" ==> Get(r.value, k) == Get(o, k)
  {
    var r1 := ApplyType(o);
    if r1.Err? {
      return Err(r1.error);
    }
    var o1 := r1.value;
    assert Get(o1, "cookie") == CookieOption(o);
    var r2 := NormaliseCookie(o1);
    if r2.Err? {
      return Err(r2.error);
    }
    var o2 := r2.value;
    assert Get(o2, "header") == HeaderOption(o);
    var r3 := NormaliseHeader(o2);
    if r3.Err? {
      return Err(r3.error);
    }
    var o3 := r3.value;
    assert Get(o3, "jwt") == Get(o, "jwt");
    var r4 := NormaliseJwt(o3, canonicalAlgorithmName);
    if r4.Err? {
      return Err(r4.error);
    }
    var o4 := r4.value;
    assert Get(o4, "cookie") == Get(o2, "cookie") && Get(o4, "header") == Get(o3, "header");
    RewriteFramed(o, o1, o2, o3, o4);
    return Ok(o4);
  }

  /**
   * The `Sessions` constructor's option normalisation, in the source's order:
   * `opts` (or `{}`), then type, cookie, header, JWT and the two defaults.
   * The result is what the constructor stores as `this.configuration`.
   */
  method Normalise(opts: JsValue, canonicalAlgorithmName: JsValue -> Option<JsValue>)
    returns (r: Result<JsValue, SessionError>)
    ensures Truthy(opts) && !opts.IsObject() ==> r == Err(TypeError)
    ensures !Truthy(opts) ==> r.Ok?
    ensures r.Ok? ==> r.value.IsObject()
    ensures var o := Input(opts);
            r.Err? <==>
              || UnsupportedTypeOption(o)
              || CookieFailure(CookieOption(o)).Some?
              || HeaderFailure(HeaderOption(o))
              || JwtFailure(Get(o, "jwt"), canonicalAlgorithmName).Some?
              || (!o.IsObject() && Get(o, "autoCreateSession") != Bool(false))
    ensures UnsupportedTypeOption(Input(opts)) ==> r == Err(UnsupportedType)
    ensures var o := Input(opts);
            !UnsupportedTypeOption(o) && CookieFailure(CookieOption(o)).Some? ==>
              r == Err(CookieFailure(CookieOption(o)).value)
    ensures var o := Input(opts);
            !UnsupportedTypeOption(o) && CookieFailure(CookieOption(o)).None? && HeaderFailure(HeaderOption(o)) ==>
              r == Err(HeaderNameInvalid)
    ensures var o := Input(opts);
            && !UnsupportedTypeOption(o) && CookieFailure(CookieOption(o)).None? && !HeaderFailure(HeaderOption(o))
            && JwtFailure(Get(o, "jwt"), canonicalAlgorithmName).Some?
            ==> r == Err(JwtFailure(Get(o, "jwt"), canonicalAlgorithmName).value)
    ensures r.Ok? && Get(Input(opts), "type") == Str("cookie") ==> !Truthy(Get(r.value, "header"))
    ensures r.Ok? && Get(Input(opts), "type") == Str("header") ==> !Truthy(Get(r.value, "cookie"))
    ensures var c := CookieOption(Input(opts));
            r.Ok? ==> Get(r.value, "cookie") == if Truthy(c) then NormalisedCookie(c) else c
    ensures var h := HeaderOption(Input(opts));
            r.Ok? ==> Get(r.value, "header") == if h == Bool(true) then Str(DefaultHeaderName) else h
    ensures r.Ok? && !Truthy(Get(Input(opts), "jwt")) ==> Get(r.value, "jwt") == Get(Input(opts), "jwt")
    ensures r.Ok? && Truthy(Get(Input(opts), "jwt")) ==>
              var s := SettingsObject(Get(Input(opts), "jwt"), "secret");
              && AcceptedSettings(Get(Input(opts), "jwt")) && JwtSettingsOf(s, canonicalAlgorithmName).Ok?
              && Get(r.value, "jwt") == JwtSettingsOf(s, canonicalAlgorithmName).value
    ensures r.Ok? ==>
              Get(r.value, "autoCreateSession") == Bool(Get(Input(opts), "autoCreateSession") != Bool(false))
    ensures r.Ok? ==>
              Get(r.value, "sessionStorage")
                == if Truthy(Get(Input(opts), "sessionStorage")) then Get(Input(opts), "sessionStorage")
                   else if Truthy(Get(Input(opts), "sessionStorageApp")) then Get(Input(opts), "sessionStorageApp")
                   else Str(DefaultSessionStorage)
    ensures r.Ok? ==> SameExcept(r.value, Input(opts), HandledNames)
  {
    var o0 := if Truthy(opts) then opts else Obj(map[]);
    assert o0 == Input(opts);
    var r4 := RewriteOptions(o0, canonicalAlgorithmName);
    if r4.Err? {
      return Err(r4.error);
    }
    var o4 := r4.value;
    assert Get(o4, "autoCreateSession") == Get(o0, "autoCreateSession");
    assert Get(o4, "sessionStorage") == Get(o0, "sessionStorage");
    assert Get(o4, "sessionStorageApp") == Get(o0, "sessionStorageApp");
    var r5 := ApplyDefaults(o4);
    if r5.Err? {
      return Err(r5.error);
    }
    var o5 := r5.value;
    assert Get(o5, "cookie") == Get(o4, "cookie") && Get(o5, "header") == Get(o4, "header");
    assert Get(o5, "jwt") == Get(o4, "jwt");
    return Ok(o5);
  }
}
