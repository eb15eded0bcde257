/**
 The API facade `InvestApi` and the `generate_client!` accessors: each
 accessor copies the facade's token and app name into a freshly built
 interceptor and binds it, with a copy of the shared channel handle, into
 a service client.
 */
module Api {
  import opened Wrappers
  import opened MetadataExt
  import opened Interceptor

  /** The shared `tonic::transport::Channel`; accessors copy the handle, they never open a connection. */
  datatype Channel = Channel(endpoint: string)

  /** The ten remote services, one accessor each. */
  datatype Service =
    | Instruments | MarketData | MarketDataStream | Operations | Orders
    | OrdersStream | Sandbox | Signal | StopOrders | Users

  /** A generated `XxxServiceClient<InterceptedService<Channel, I>>`. */
  datatype ServiceClient<I> = ServiceClient(service: Service, channel: Channel, interceptor: I)

  /** The crate's error type, as far as accessors are concerned; no accessor produces one. */
  datatype Error = TransportError | StatusError(status: Status)

  /**
   The generic binding behind every accessor, for any capability pair: build a
   fresh interceptor from `data` and wrap it with the channel handle.
   */
  function MakeClient<D, I>(kind: InterceptorWithNew<D, I>, data: D, channel: Channel, service: Service)
    : (r: Result<ServiceClient<I>, Error>)
    ensures r.Success?
    ensures r.value.service == service && r.value.channel == channel
    ensures r.value.interceptor == kind.build(data)
  {
    Success(ServiceClient(service, channel, kind.build(data)))
  }

  /** `InvestApi`: the token and optional app name every client is stamped with. */
  datatype InvestApi = InvestApi(token: string, appName: Option<string>)

  /** `InvestApi::with_token`: a facade with this token and no app name. */
  function WithToken(token: string): (api: InvestApi)
    ensures api.token == token && api.appName.None?
  {
    InvestApi(token, None)
  }

  /** `InvestApi::with_app_name`: sets the app name, keeps the token. */
  function WithAppName(api: InvestApi, appName: string): (r: InvestApi)
    ensures r.token == api.token && r.appName == Some(appName)
  {
    api.(appName := Some(appName))
  }

  /**
   The first `generate_client!` arm, for an explicit interceptor type: the
   interceptor is built from copies of the facade's token and app name.
   */
  function GenerateClientWith<I>(api: InvestApi, kind: InterceptorWithNew<InterceptorData, I>,
                                 channel: Channel, service: Service)
    : (r: Result<ServiceClient<I>, Error>)
    ensures r.Success? && r.value.service == service && r.value.channel == channel
    ensures r.value.interceptor == kind.build(InterceptorData(api.token, api.appName))
  {
    MakeClient(kind, InterceptorData(api.token, api.appName), channel, service)
  }

  /**
   The second `generate_client!` arm, the one all ten accessors (`instruments`,
   `market_data`, ..., `users`) instantiate: the first arm at `TinkoffInterceptor`.
   */
  function GenerateClient(api: InvestApi, channel: Channel, service: Service)
    : (r: Result<ServiceClient<TinkoffInterceptor>, Error>)
    ensures r == GenerateClientWith(api, Tinkoff, channel, service)
    ensures r.Success? && r.value.interceptor.data == InterceptorData(api.token, api.appName)
  {
    Success(ServiceClient(service, channel, New(InterceptorData(api.token, api.appName))))
  }

  /** `with_app_name` twice: the last name wins and the token is the one given first. */
  lemma WithAppNameLastWins(token: string, first: string, second: string)
    ensures WithAppName(WithAppName(WithToken(token), first), second) == WithAppName(WithToken(token), second)
    ensures WithAppName(WithAppName(WithToken(token), first), second).token == token
  {
  }

  /**
   Which service is requested does not matter: two accessors share the channel
   handle and their interceptors stamp identical headers on identical calls.
   */
  lemma AccessorsStampAlike(api: InvestApi, channel: Channel, s1: Service, s2: Service,
                            request: Request, freshId: string, encodable: string -> bool)
    ensures GenerateClient(api, channel, s1).value.channel == GenerateClient(api, channel, s2).value.channel
    ensures Call(GenerateClient(api, channel, s1).value.interceptor, request, freshId, encodable)
            == Call(GenerateClient(api, channel, s2).value.interceptor, request, freshId, encodable)
  {
  }

  /**
   End to end: a client of `with_token(t)` stamps `Bearer t` and no app name; after
   `with_app_name(n)`, new clients also stamp `x-app-name: n`, while a client made
   before keeps stamping without it.
   */
  lemma FacadeStampsItsCredentials(token: string, appName: string, channel: Channel, service: Service,
                                   request: Request, freshId: string, encodable: string -> bool)
    ensures var before := GenerateClient(WithToken(token), channel, service).value;
            var out := Call(before.interceptor, request, freshId, encodable).result.value.metadata;
            && ValuesOf(out, Authorization) == ValuesOf(request.metadata, Authorization) + Stamp(BearerValue(token), encodable)
            && ValuesOf(out, AppNameKey) == ValuesOf(request.metadata, AppNameKey)
    ensures var after := GenerateClient(WithAppName(WithToken(token), appName), channel, service).value;
            var out := Call(after.interceptor, request, freshId, encodable).result.value.metadata;
            && ValuesOf(out, Authorization) == ValuesOf(request.metadata, Authorization) + Stamp(BearerValue(token), encodable)
            && ValuesOf(out, AppNameKey) == ValuesOf(request.metadata, AppNameKey) + Stamp(appName, encodable)
  {
  }
}
