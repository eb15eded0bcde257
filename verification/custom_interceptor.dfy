/**
 The `CustomInterceptor` example: a caller-defined capability pair whose data
 is only a token and whose interceptor stamps only `authorization`, plugged
 into the same generic client binding.
 */
module CustomInterceptorExample {
  import opened Wrappers
  import opened MetadataExt
  import opened Interceptor
  import Api

  datatype CustomInterceptorData = CustomInterceptorData(token: string)

  datatype CustomInterceptor = CustomInterceptor(data: CustomInterceptorData)

  /** `CustomInterceptor::new` stores the data as given. */
  function New(data: CustomInterceptorData): (i: CustomInterceptor)
    ensures i.data == data
  {
    CustomInterceptor(data)
  }

  /** `CustomInterceptor::call`: appends `authorization: Bearer <token>` when it encodes, nothing else. */
  function Call(self: CustomInterceptor, request: Request, freshId: string, encodable: string -> bool)
    : (r: Called<CustomInterceptor>)
    ensures r.interceptor == self
    ensures r.result.Success?
    ensures var m := request.metadata; var out := r.result.value.metadata;
            |m| <= |out| <= |m| + 1 && out[..|m|] == m
    ensures var m := request.metadata; var out := r.result.value.metadata;
            ValuesOf(out, Authorization) == ValuesOf(m, Authorization) + Stamp(BearerValue(self.data.token), encodable)
    ensures var m := request.metadata; var out := r.result.value.metadata;
            forall k :: k != Authorization ==> ValuesOf(out, k) == ValuesOf(m, k)
  {
    var stamped := SafeAppend(request.metadata, Authorization, BearerValue(self.data.token), encodable);
    Called(self, Success(Request(stamped.metadata)))
  }

  const Custom: InterceptorWithNew<CustomInterceptorData, CustomInterceptor> := InterceptorWithNew(New, Call)

  /** The example's `CustomApi`: a token only. */
  datatype CustomApi = CustomApi(token: string)

  /** `CustomApi::with_token`. */
  function WithToken(token: string): (api: CustomApi)
    ensures api.token == token
  {
    CustomApi(token)
  }

  /** `interceptor_data`: a copy of the token. */
  function GetInterceptorData(api: CustomApi): (data: CustomInterceptorData)
    ensures data.token == api.token
  {
    CustomInterceptorData(api.token)
  }

  /** An accessor of this facade: the generic binding at `CustomInterceptor`. */
  function Client(api: CustomApi, channel: Api.Channel, service: Api.Service)
    : (r: Result<Api.ServiceClient<CustomInterceptor>, Api.Error>)
    ensures r.Success? && r.value.service == service && r.value.channel == channel
    ensures r.value.interceptor.data.token == api.token
  {
    Api.MakeClient(Custom, GetInterceptorData(api), channel, service)
  }

  /**
   Swapping the interceptor changes only the stamping: the custom client binds
   the same channel and service, and its calls add `authorization` alone, never
   a request id or an app name.
   */
  lemma CustomClientStampsOnlyAuthorization(token: string, channel: Api.Channel, service: Api.Service,
                                            request: Request, freshId: string, encodable: string -> bool)
    ensures var custom := Client(WithToken(token), channel, service).value;
            var standard := Api.GenerateClient(Api.WithToken(token), channel, service).value;
            custom.channel == standard.channel && custom.service == standard.service
    ensures var custom := Client(WithToken(token), channel, service).value;
            var out := Custom.call(custom.interceptor, request, freshId, encodable).result.value.metadata;
            && ValuesOf(out, Authorization) == ValuesOf(request.metadata, Authorization) + Stamp(BearerValue(token), encodable)
            && ValuesOf(out, RequestIdKey) == ValuesOf(request.metadata, RequestIdKey)
            && ValuesOf(out, AppNameKey) == ValuesOf(request.metadata, AppNameKey)
  {
  }
}
