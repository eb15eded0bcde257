/**
 The `CustomApi` example facade: a caller-defined facade that carries a token
 and an optional app name and hands them to the crate's `TinkoffInterceptor`
 through `interceptor_data`.
 */
module CustomApiExample {
  import opened Wrappers
  import opened MetadataExt
  import opened Interceptor
  import Api

  datatype CustomApi = CustomApi(token: string, appName: Option<string>)

  /** `CustomApi::with_token`: this token, no app name. */
  function WithToken(token: string): (api: CustomApi)
    ensures api.token == token && api.appName.None?
  {
    CustomApi(token, None)
  }

  /** `CustomApi::with_app_name`: sets the app name, keeps the token. */
  function WithAppName(api: CustomApi, appName: string): (r: CustomApi)
    ensures r.token == api.token && r.appName == Some(appName)
  {
    api.(appName := Some(appName))
  }

  /** `interceptor_data`: copies of the facade's token and app name. */
  function GetInterceptorData(api: CustomApi): (data: InterceptorData)
    ensures data.token == api.token && data.appName == api.appName
  {
    InterceptorData(api.token, api.appName)
  }

  /** An accessor of this facade: the generic binding at `TinkoffInterceptor`. */
  function Client(api: CustomApi, channel: Api.Channel, service: Api.Service)
    : (r: Result<Api.ServiceClient<TinkoffInterceptor>, Api.Error>)
    ensures r.Success? && r.value.service == service && r.value.channel == channel
    ensures r.value.interceptor.data == InterceptorData(api.token, api.appName)
  {
    Api.MakeClient(Tinkoff, GetInterceptorData(api), channel, service)
  }

  /** This facade builds the same clients as the crate's own facade with the same settings. */
  lemma SameClientsAsInvestApi(token: string, appName: string, channel: Api.Channel, service: Api.Service)
    ensures Client(WithToken(token), channel, service) == Api.GenerateClient(Api.WithToken(token), channel, service)
    ensures Client(WithAppName(WithToken(token), appName), channel, service)
            == Api.GenerateClient(Api.WithAppName(Api.WithToken(token), appName), channel, service)
  {
  }

  /** Calls through this facade's clients carry an `x-app-name` exactly when `with_app_name` was used. */
  lemma AppNameHeaderIffSet(api: CustomApi, channel: Api.Channel, service: Api.Service,
                            request: Request, freshId: string, encodable: string -> bool)
    requires api.appName.Some? ==> encodable(api.appName.value)
    ensures var client := Client(api, channel, service).value;
            var out := Call(client.interceptor, request, freshId, encodable).result.value.metadata;
            |ValuesOf(out, AppNameKey)| == |ValuesOf(request.metadata, AppNameKey)| + (if api.appName.Some? then 1 else 0)
  {
  }
}
