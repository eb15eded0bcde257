/**
 The request interceptor: `InterceptorData`, the `IntercemptorWithNew`
 capability (build from data, then stamp every call) and the crate's
 `TinkoffInterceptor`, which stamps `authorization`, `x-request-id` and an
 optional `x-app-name` onto each outbound request.
 */
module Interceptor {
  import opened Wrappers
  import opened MetadataExt

  const Authorization: string := "authorization"
  const RequestIdKey: string := "x-request-id"
  const AppNameKey: string := "x-app-name"

  /** The headers this interceptor may add. */
  const StampKeys: set<string> := {Authorization, RequestIdKey, AppNameKey}

  /** `tonic::Request<()>`: only its metadata matters to an interceptor. */
  datatype Request = Request(metadata: Metadata)

  /** `tonic::Status`, the error an interceptor may answer with. */
  datatype Status = Status(message: string)

  /** The interceptor after a call (`call` takes `&mut self`) and what the call returned. */
  datatype Called<I> = Called(interceptor: I, result: Result<Request, Status>)

  /**
   `IntercemptorWithNew<D>` together with tonic's `Interceptor`: how to build an
   interceptor of type `I` from data `D`, and how it treats one call. Each call
   also receives a fresh request id and the metadata encodability check, both
   supplied by the environment.
   */
  datatype InterceptorWithNew<!D, !I> = InterceptorWithNew(
    build: D -> I,
    call: (I, Request, string, string -> bool) -> Called<I>)

  /** What every call is stamped with. */
  datatype InterceptorData = InterceptorData(token: string, appName: Option<string>)

  datatype TinkoffInterceptor = TinkoffInterceptor(data: InterceptorData)

  /** The `authorization` value: the bearer scheme of section 2.1 of RFC 6750. */
  function BearerValue(token: string): (v: string)
    ensures |v| == |token| + 7 && v[..7] == "Bearer " && v[7..] == token
  {
    "Bearer " + token
  }

  /** The values one `safe_append` of `value` adds under its key. */
  function Stamp(value: string, encodable: string -> bool): seq<string> {
    if encodable(value) then [value] else []
  }

  /** Order of the stamped headers: authorization, then request id, then app name. */
  function StampRank(key: string): nat {
    if key == Authorization then 0
    else if key == RequestIdKey then 1
    else if key == AppNameKey then 2
    else 3
  }

  /** Only stamp headers, each at most once, in stamp order. */
  predicate InStampOrder(added: Metadata) {
    && (forall i :: 0 <= i < |added| ==> added[i].0 in StampKeys)
    && (forall i, j :: 0 <= i < j < |added| ==> StampRank(added[i].0) < StampRank(added[j].0))
  }

  /** `TinkoffInterceptor::new` stores the data as given. */
  function New(data: InterceptorData): (i: TinkoffInterceptor)
    ensures i.data == data
  {
    TinkoffInterceptor(data)
  }

  /** The entries a successful `safe_append` of `value` adds. */
  function Appended1(key: string, value: string, encodable: string -> bool): (e: Metadata)
    ensures |e| <= 1
    ensures forall i :: 0 <= i < |e| ==> e[i] == (key, value)
  {
    if encodable(value) then [(key, value)] else []
  }

  /** The entries one call adds for `data`, in the order the call appends them. */
  function Stamps(data: InterceptorData, freshId: string, encodable: string -> bool): Metadata {
    Appended1(Authorization, BearerValue(data.token), encodable)
    + Appended1(RequestIdKey, freshId, encodable)
    + (if data.appName.Some? then Appended1(AppNameKey, data.appName.value, encodable) else [])
  }

  /** The three `safe_append`s of a call extend the map by exactly `Stamps`. */
  lemma StampedLayout(m: Metadata, data: InterceptorData, freshId: string, encodable: string -> bool)
    ensures var a := SafeAppend(m, Authorization, BearerValue(data.token), encodable).metadata;
            var b := SafeAppend(a, RequestIdKey, freshId, encodable).metadata;
            var c := if data.appName.Some? then SafeAppend(b, AppNameKey, data.appName.value, encodable).metadata else b;
            c == m + Stamps(data, freshId, encodable)
  {
  }

  lemma StampsInOrder(data: InterceptorData, freshId: string, encodable: string -> bool)
    ensures |Stamps(data, freshId, encodable)| <= 3
    ensures InStampOrder(Stamps(data, freshId, encodable))
  {
  }

  /** What one optional entry contributes under each key. */
  lemma Appended1Values(key: string, value: string, encodable: string -> bool, k: string)
    ensures ValuesOf(Appended1(key, value, encodable), k) == if k == key then Stamp(value, encodable) else []
  {
    var e := Appended1(key, value, encodable);
    if k != key {
      ValuesOfOtherKeys(e, k);
    } else if encodable(value) {
      assert e[..0] == [];
    }
  }

  lemma StampsValues(data: InterceptorData, freshId: string, encodable: string -> bool, k: string)
    ensures var added := Stamps(data, freshId, encodable);
            ValuesOf(added, k)
            == if k == Authorization then Stamp(BearerValue(data.token), encodable)
               else if k == RequestIdKey then Stamp(freshId, encodable)
               else if k == AppNameKey && data.appName.Some? then Stamp(data.appName.value, encodable)
               else []
  {
    var a := Appended1(Authorization, BearerValue(data.token), encodable);
    var b := Appended1(RequestIdKey, freshId, encodable);
    var c := if data.appName.Some? then Appended1(AppNameKey, data.appName.value, encodable) else [];
    assert ValuesOf(Stamps(data, freshId, encodable), k) == ValuesOf(a, k) + ValuesOf(b, k) + ValuesOf(c, k) by {
      ValuesOfConcat(a, b, k);
      ValuesOfConcat(a + b, c, k);
    }
    Appended1Values(Authorization, BearerValue(data.token), encodable, k);
    Appended1Values(RequestIdKey, freshId, encodable, k);
    if data.appName.Some? {
      Appended1Values(AppNameKey, data.appName.value, encodable, k);
    }
  }

  /**
   `TinkoffInterceptor::call`: appends `authorization: Bearer <token>`, then
   `x-request-id: <freshId>`, then `x-app-name` when an app name is set; a value
   that cannot be encoded is skipped and the call still succeeds.
   */
  function Call(self: TinkoffInterceptor, request: Request, freshId: string, encodable: string -> bool)
    : (r: Called<TinkoffInterceptor>)
    ensures r.interceptor == self
    ensures r.result.Success?
    ensures var m := request.metadata; var out := r.result.value.metadata;
            |m| <= |out| <= |m| + 3 && out[..|m|] == m && InStampOrder(out[|m|..])
    ensures var m := request.metadata; var out := r.result.value.metadata;
            ValuesOf(out, Authorization) == ValuesOf(m, Authorization) + Stamp(BearerValue(self.data.token), encodable)
    ensures var m := request.metadata; var out := r.result.value.metadata;
            ValuesOf(out, RequestIdKey) == ValuesOf(m, RequestIdKey) + Stamp(freshId, encodable)
    ensures var m := request.metadata; var out := r.result.value.metadata;
            ValuesOf(out, AppNameKey) == ValuesOf(m, AppNameKey)
              + (if self.data.appName.Some? then Stamp(self.data.appName.value, encodable) else [])
    ensures var m := request.metadata; var out := r.result.value.metadata;
            forall k :: k !in StampKeys ==> ValuesOf(out, k) == ValuesOf(m, k)
  {
    var m := request.metadata;
    var withToken := SafeAppend(m, Authorization, BearerValue(self.data.token), encodable);
    var withId := SafeAppend(withToken.metadata, RequestIdKey, freshId, encodable);
    var out :=
      match self.data.appName
      case Some(name) => SafeAppend(withId.metadata, AppNameKey, name, encodable).metadata
      case None => withId.metadata;
    var added := Stamps(self.data, freshId, encodable);
    StampedLayout(m, self.data, freshId, encodable);
    assert out == m + added;
    assert out[..|m|] == m && out[|m|..] == added;
    StampsInOrder(self.data, freshId, encodable);
    forall k ensures ValuesOf(out, k) == ValuesOf(m, k) + ValuesOf(added, k) {
      ValuesOfConcat(m, added, k);
    }
    StampsValues(self.data, freshId, encodable, Authorization);
    StampsValues(self.data, freshId, encodable, RequestIdKey);
    StampsValues(self.data, freshId, encodable, AppNameKey);
    forall k | k !in StampKeys ensures ValuesOf(added, k) == [] {
      StampsValues(self.data, freshId, encodable, k);
    }
    Called(self, Success(Request(out)))
  }

  /** The crate's own capability pair. */
  const Tinkoff: InterceptorWithNew<InterceptorData, TinkoffInterceptor> := InterceptorWithNew(New, Call)

  /** On an empty request with encodable values, exactly these headers go out, in this order. */
  lemma FreshRequestHeaders(data: InterceptorData, freshId: string, encodable: string -> bool)
    requires encodable(BearerValue(data.token)) && encodable(freshId)
    requires data.appName.Some? ==> encodable(data.appName.value)
    ensures Call(New(data), Request([]), freshId, encodable).result.value.metadata
            == [(Authorization, BearerValue(data.token)), (RequestIdKey, freshId)]
               + (if data.appName.Some? then [(AppNameKey, data.appName.value)] else [])
  {
    StampedLayout([], data, freshId, encodable);
  }

  /**
   A call leaves the interceptor as it was, so a second call stamps the same
   `authorization` and `x-app-name` values; only the request id differs.
   */
  lemma RepeatedCallsDifferOnlyInRequestId(
    i: TinkoffInterceptor, request: Request, id1: string, id2: string, encodable: string -> bool)
    ensures var first := Call(i, request, id1, encodable);
            var second := Call(first.interceptor, request, id2, encodable);
            && second.interceptor == i
            && (forall k :: k != RequestIdKey ==>
                  ValuesOf(first.result.value.metadata, k) == ValuesOf(second.result.value.metadata, k))
            && ValuesOf(second.result.value.metadata, RequestIdKey)
               == ValuesOf(request.metadata, RequestIdKey) + Stamp(id2, encodable)
  {
    var first := Call(i, request, id1, encodable);
    assert first.interceptor == i;
    var o1 := first.result.value.metadata;
    var o2 := Call(i, request, id2, encodable).result.value.metadata;
    forall k | k != RequestIdKey
      ensures ValuesOf(o1, k) == ValuesOf(o2, k)
    {
      if k == Authorization {
      } else if k == AppNameKey {
      } else {
        assert k !in StampKeys;
      }
    }
  }
}
