/** The HTTP client: one pipeline that attaches the bearer token on the way
    out, and on the way in unwraps the `{code, message, timestamp, data}`
    envelope and classifies failures. The transport itself (axios, the 30 s
    timeout, toasts, `setTimeout`, `window.location`) is outside the model:
    what the pipeline does to the world is returned as a list of effects. */
module Request {
  import opened Common
  import opened Text
  import UserStore

  type Headers = map<string, string>

  const BaseUrl := "/api"
  const TimeoutMs: nat := 30000
  const DefaultHeaders: Headers := map["Content-Type" := "application/json"]

  const GenericFailure := "请求失败"
  const SessionExpired := "登录已过期，请重新登录"
  const Forbidden := "没有权限访问该资源"
  const NotFound := "请求的资源不存在"
  const ServerError := "服务器内部错误"
  const NetworkError := "网络错误，请检查网络连接"
  const SignInPath := "/sign-in"
  const RedirectDelayMs: nat := 100

  datatype Verb = Get | Post | Put | Delete

  /** The wire envelope of every API response; `code == 0` is the only success. */
  datatype Envelope<T> = Envelope(code: int, message: string, timestamp: string, data: T)

  /** Why the transport failed. */
  datatype HttpFailure =
      /** The server answered with a non-2xx status; its body may carry a message. */
    | WithResponse(status: nat, bodyMessage: Option<string>)
      /** The request went out and nothing came back (network failure or timeout). */
    | NoResponse
      /** The request could not even be made. */
    | Local(message: string)

  /** What the transport delivered for one request. */
  datatype Exchange<T> = Delivered(envelope: Envelope<T>) | Failed(failure: HttpFailure)

  /** The error a rejected call carries: a new error built from the envelope's
      message, or the transport's own error passed through unchanged. */
  datatype Rejection = AppError(message: string) | Transport(failure: HttpFailure)

  datatype Outcome<T> = Resolved(value: T) | Rejected(reason: Rejection)

  datatype Effect =
    | Toast(text: string)
    | TokenCleared
    | RedirectScheduled(path: string, delayMs: nat)

  /** The credential store after the call, the effects, and the call's result. */
  datatype Handled<T> = Handled(store: UserStore.State, effects: seq<Effect>, outcome: Outcome<T>)

  datatype Outbound = Outbound(verb: Verb, url: string, headers: Headers)

  datatype Reply<T> = Reply(sent: Outbound, handled: Handled<T>)

  function CountToasts(effects: seq<Effect>): nat {
    if |effects| == 0 then 0
    else (if effects[0].Toast? then 1 else 0) + CountToasts(effects[1..])
  }

  function CountRedirects(effects: seq<Effect>): nat {
    if |effects| == 0 then 0
    else (if effects[0].RedirectScheduled? then 1 else 0) + CountRedirects(effects[1..])
  }

  /** The request interceptor: the bearer header is set exactly when the
      stored token is non-empty; otherwise the headers are passed on as they
      are. No other header is touched. */
  function AttachToken(headers: Headers, token: string): (h: Headers)
    ensures token != "" ==> "Authorization" in h && h["Authorization"] == "Bearer " + token
    ensures token == "" ==> h == headers
    ensures h.Keys == headers.Keys + (if token != "" then {"Authorization"} else {})
    ensures forall k :: k in headers && k != "Authorization" ==> h[k] == headers[k]
  {
    if token != "" then headers["Authorization" := "Bearer " + token] else headers
  }

  /** The success half of the response interceptor: an envelope with code 0
      passes through unchanged; any other code rejects with the envelope's
      message (or the generic one) and shows that same text once. */
  function OnDelivered<T>(env: Envelope<T>): (r: (seq<Effect>, Outcome<Envelope<T>>))
    ensures env.code == 0 <==> r.1.Resolved?
    ensures env.code == 0 ==> r.1.value == env && r.0 == []
    ensures env.code != 0 ==>
      var text := if env.message != "" then env.message else GenericFailure;
      r.0 == [Toast(text)] && r.1 == Rejected(AppError(text))
  {
    if env.code != 0 then
      var text := OrElse(Some(env.message), GenericFailure);
      ([Toast(text)], Rejected(AppError(text)))
    else ([], Resolved(env))
  }

  /** The toast shown for a transport failure: never empty, and an error
      raised before sending shows its own message when it has one. */
  function FailureText(f: HttpFailure): (r: string)
    ensures r != ""
    ensures f.Local? ==> r == (if f.message != "" then f.message else GenericFailure)
    ensures f.WithResponse? && f.status !in {401, 403, 404, 500} && Present(f.bodyMessage) ==>
      r == f.bodyMessage.value
  {
    match f
    case WithResponse(status, body) =>
      if status == 401 then SessionExpired
      else if status == 403 then Forbidden
      else if status == 404 then NotFound
      else if status == 500 then ServerError
      else OrElse(body, GenericFailure + " (" + NatToString(status) + ")")
    case NoResponse => NetworkError
    case Local(message) => OrElse(Some(message), GenericFailure)
  }

  /** The error half of the response interceptor. A 401 clears the token
      through the store's `clearToken`, tells the user the session expired and
      schedules one redirect to the sign-in page; every other failure only
      shows a message. The error always propagates to the caller. */
  function OnFailed<T>(store: UserStore.State, f: HttpFailure): (r: Handled<T>)
    ensures r.outcome == Rejected(Transport(f))
    ensures f.WithResponse? && f.status == 401 ==>
      && r.store == UserStore.ClearToken(store)
      && r.effects == [TokenCleared, Toast(SessionExpired), RedirectScheduled(SignInPath, RedirectDelayMs)]
    ensures !(f.WithResponse? && f.status == 401) ==>
      r.store == store && r.effects == [Toast(FailureText(f))]
  {
    if f.WithResponse? && f.status == 401 then
      Handled(UserStore.ClearToken(store),
              [TokenCleared, Toast(SessionExpired), RedirectScheduled(SignInPath, RedirectDelayMs)],
              Rejected(Transport(f)))
    else
      Handled(store, [Toast(FailureText(f))], Rejected(Transport(f)))
  }

  /** Both interceptors around one exchange. The call resolves, unchanged
      and silently, exactly when the envelope's code is 0; every rejection
      comes with effects. The store changes only by losing its token. */
  function Dispatch<T>(store: UserStore.State, ex: Exchange<T>): (r: Handled<Envelope<T>>)
    ensures r.outcome.Resolved? <==> ex.Delivered? && ex.envelope.code == 0
    ensures r.outcome.Resolved? ==> r.outcome.value == ex.envelope && r.effects == []
    ensures r.outcome.Rejected? ==> r.effects != []
    ensures ex.Delivered? ==> r.store == store
    ensures r.store == store || r.store == UserStore.ClearToken(store)
  {
    match ex
    case Delivered(env) =>
      var (effects, outcome) := OnDelivered(env);
      Handled(store, effects, outcome)
    case Failed(f) => OnFailed(store, f)
  }

  /** The request as it leaves the client: verb and URL as given, the JSON
      content type, and the bearer header exactly when signed in. */
  function Prepare(store: UserStore.State, verb: Verb, url: string): (r: Outbound)
    ensures r.verb == verb && r.url == url
    ensures "Content-Type" in r.headers && r.headers["Content-Type"] == "application/json"
    ensures "Authorization" in r.headers <==> UserStore.IsLoggedIn(store)
    ensures r.headers.Keys <= {"Content-Type", "Authorization"}
  {
    Outbound(verb, url, AttachToken(DefaultHeaders, store.token))
  }

  /** `get`, `post`, `put` and `del`: the same pipeline, resolving to the
      envelope's `data` only. */
  function Call<T>(store: UserStore.State, verb: Verb, url: string, ex: Exchange<T>): (r: Reply<T>)
    ensures r.sent.verb == verb && r.sent.url == url
    ensures r.handled.outcome.Resolved? <==> ex.Delivered? && ex.envelope.code == 0
    ensures r.handled.outcome.Resolved? ==> r.handled.outcome.value == ex.envelope.data
    ensures ex.Delivered? ==> r.handled.store == store
  {
    var h := Dispatch(store, ex);
    var outcome := match h.outcome
      case Resolved(env) => Resolved(env.data)
      case Rejected(e) => Rejected(e);
    Reply(Prepare(store, verb, url), Handled(h.store, h.effects, outcome))
  }

  /** `getFullResponse`: a GET that resolves to the whole envelope. */
  function GetFullResponse<T>(store: UserStore.State, url: string, ex: Exchange<T>): (r: Reply<Envelope<T>>)
    ensures r.sent.verb == Get && r.sent.url == url
    ensures r.handled.outcome.Resolved? <==> ex.Delivered? && ex.envelope.code == 0
    ensures r.handled.outcome.Resolved? ==> r.handled.outcome.value == ex.envelope
  {
    Reply(Prepare(store, Get, url), Dispatch(store, ex))
  }

  /** The outgoing request carries the bearer header exactly when signed in. */
  lemma {:induction false} BearerIffLoggedIn(store: UserStore.State, verb: Verb, url: string)
    ensures var h := Prepare(store, verb, url).headers;
      && ("Authorization" in h <==> UserStore.IsLoggedIn(store))
      && (UserStore.IsLoggedIn(store) ==> h["Authorization"] == "Bearer " + UserStore.GetToken(store))
  { }

  /** Every failure shows exactly one toast and ends in a rejection; a
      redirect is scheduled, exactly once, only for a 401. */
  lemma {:induction false} FailuresAreReportedOnce<T>(store: UserStore.State, verb: Verb, url: string, ex: Exchange<T>)
    ensures var h := Call(store, verb, url, ex).handled;
      && (h.outcome.Rejected? ==> CountToasts(h.effects) == 1)
      && (h.outcome.Resolved? ==> h.effects == [])
      && CountRedirects(h.effects) == (if ex.Failed? && ex.failure.WithResponse? && ex.failure.status == 401 then 1 else 0)
  {
    var e := Call(store, verb, url, ex).handled.effects;
    match ex
    case Delivered(env) =>
      if env.code != 0 {
        assert e[1..] == [];
      }
    case Failed(f) =>
      if f.WithResponse? && f.status == 401 {
        assert e[1..] == [Toast(SessionExpired), RedirectScheduled(SignInPath, RedirectDelayMs)];
        assert e[1..][1..] == [RedirectScheduled(SignInPath, RedirectDelayMs)];
        assert e[1..][1..][1..] == [];
        assert CountToasts(e[1..][1..]) == 0 && CountRedirects(e[1..][1..]) == 1;
        assert CountToasts(e[1..]) == 1 && CountRedirects(e[1..]) == 1;
      } else {
        assert e[1..] == [];
      }
  }

  /** A rejection from the envelope carries the same text the user was shown. */
  lemma {:induction false} RejectionMatchesToast<T>(store: UserStore.State, verb: Verb, url: string, env: Envelope<T>)
    requires env.code != 0
    ensures var h := Call(store, verb, url, Delivered(env)).handled;
      && h.outcome.Rejected? && h.outcome.reason.AppError?
      && h.effects == [Toast(h.outcome.reason.message)]
      && h.outcome.reason.message == (if env.message == "" then GenericFailure else env.message)
  { }

  /** Only a 401 touches the credential store, and it clears the token only.
      Two 401s leave the store as one does. */
  lemma {:induction false} OnlyUnauthorizedClearsToken<T>(store: UserStore.State, f: HttpFailure)
    ensures var h := OnFailed<T>(store, f);
      && h.store.userInfo == store.userInfo
      && (h.store != store ==> f.WithResponse? && f.status == 401)
      && (f.WithResponse? && f.status == 401 ==> !UserStore.IsLoggedIn(h.store))
    ensures f.WithResponse? && f.status == 401 ==>
      OnFailed<T>(OnFailed<T>(store, f).store, f).store == OnFailed<T>(store, f).store
  { }

  /** 403, 404 and 500 show their fixed texts, a request that got no answer
      shows the network message, and an error raised before sending shows its
      own message or the generic one; none of them touches the store. */
  lemma {:induction false} FixedFailureTexts<T>(store: UserStore.State, message: string)
    ensures OnFailed<T>(store, WithResponse(403, None)).effects == [Toast(Forbidden)]
    ensures OnFailed<T>(store, WithResponse(404, None)).effects == [Toast(NotFound)]
    ensures OnFailed<T>(store, WithResponse(500, None)).effects == [Toast(ServerError)]
    ensures OnFailed<T>(store, NoResponse).effects == [Toast(NetworkError)]
    ensures OnFailed<T>(store, Local(message)).effects == [Toast(if message == "" then GenericFailure else message)]
    ensures forall status: nat, body: Option<string> :: status in {403, 404, 500} ==>
      OnFailed<T>(store, WithResponse(status, body)).store == store
        && OnFailed<T>(store, WithResponse(status, body)).effects == OnFailed<T>(store, WithResponse(status, None)).effects
  { }

  /** Statuses other than 401, 403, 404 and 500 show the server's message,
      or the generic text followed by the status in parentheses. */
  lemma {:induction false} OtherStatusText(status: nat, body: Option<string>)
    requires status !in {401, 403, 404, 500}
    ensures Present(body) ==> FailureText(WithResponse(status, body)) == body.value
    ensures !Present(body) ==>
      var t := FailureText(WithResponse(status, body));
      && t[..|GenericFailure| + 2] == GenericFailure + " ("
      && t[|t| - 1] == ')'
      && DecimalValue(t[|GenericFailure| + 2..|t| - 1]) == status
  {
    if !Present(body) {
      var t := FailureText(WithResponse(status, body));
      assert t == GenericFailure + " (" + NatToString(status) + ")";
      assert t[|GenericFailure| + 2..|t| - 1] == NatToString(status);
      NatToStringRoundTrip(status);
    }
  }

  // ---------------------------------------------------------------- upload

  /** The parts of a pre-signed URL that `new URL(...)` separates. */
  datatype Url = Url(scheme: string, host: string, pathname: string, search: string)

  const ProxyPrefix := "/proxyOss"

  /** The same-origin target of an upload: the proxy prefix followed by the
      pre-signed URL's path and query. */
  function ProxyTarget(u: Url): (r: string)
    ensures |r| == |ProxyPrefix| + |u.pathname| + |u.search|
    ensures r[..|ProxyPrefix|] == ProxyPrefix
    ensures r[|ProxyPrefix|..|ProxyPrefix| + |u.pathname|] == u.pathname
    ensures r[|ProxyPrefix| + |u.pathname|..] == u.search
  {
    ProxyPrefix + u.pathname + u.search
  }

  /** Scheme and host never reach the proxied request. */
  lemma {:induction false} ProxyTargetIgnoresOrigin(u: Url, scheme: string, host: string)
    ensures ProxyTarget(u.(scheme := scheme, host := host)) == ProxyTarget(u)
  { }

  /** The upload PUT goes around the API client: it carries the supplied
      headers only, never the bearer token. */
  function UploadRequest(u: Url, headers: Headers): (r: Outbound)
    ensures r.verb == Put
    ensures r.url == ProxyTarget(u)
    ensures r.headers == headers
  {
    Outbound(Put, ProxyTarget(u), headers)
  }

  /** The progress callback's argument for one progress event: nothing when
      the total is unknown (zero) or nobody listens, otherwise the percentage
      rounded half up as `Math.round` does for non-negative values. */
  function Percent(loaded: nat, total: nat, listening: bool): (r: Option<nat>)
    ensures r.Some? <==> total > 0 && listening
    ensures r.Some? ==> 2 * total * r.value <= 200 * loaded + total < 2 * total * (r.value + 1)
  {
    if total > 0 && listening then Some((200 * loaded + total) / (2 * total)) else None
  }

  /** Reported progress stays within 0..100 while loaded does not exceed total. */
  lemma {:induction false} PercentInRange(loaded: nat, total: nat)
    requires 0 < total && loaded <= total
    ensures Percent(loaded, total, true).Some?
    ensures Percent(loaded, total, true).value <= 100
    ensures loaded == total ==> Percent(loaded, total, true).value == 100
    ensures loaded == 0 ==> Percent(loaded, total, true).value == 0
  {
    var p := Percent(loaded, total, true).value;
    var c := 2 * total;
    assert c * p <= 200 * loaded + total < c * (p + 1);
    assert 200 * loaded + total <= 201 * total;
    ScaledLess(c, p, 101);
    if loaded == total {
      ScaledLess(c, 100, p + 1);
    }
    if loaded == 0 {
      ScaledLess(c, p, 1);
    }
  }

  /** Scaling by a positive factor keeps strict order, both ways. */
  lemma {:induction false} ScaledLess(c: int, a: int, b: int)
    requires c > 0
    ensures c * a < c * b <==> a < b
  {
    if a < b {
      assert c * b - c * a == c * (b - a);
    } else {
      assert c * a - c * b == c * (a - b);
    }
  }
}
