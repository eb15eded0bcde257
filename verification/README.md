# investments-tinkoff: request stamping and `DateTime`, modelled in Dafny

This project models two parts of the `investments_tinkoff` Rust client for the
Tinkoff Invest gRPC API.

**Metadata stamping.** Every outbound request passes through an interceptor
that adds the caller's credentials to its metadata. Three pieces do this:

- `MetadataExt::safe_append` adds a header when its value is valid ASCII
  metadata. Otherwise it logs a warning and returns `false`.
- `TinkoffInterceptor` stamps every outbound request with up to three headers,
  each skipped if its value does not encode:
  - `authorization: Bearer <token>`;
  - a fresh `x-request-id`;
  - `x-app-name`, when an app name is set.
- The `InvestApi` facade holds the token and the app name. Its ten
  `generate_client!` accessors (`instruments` … `users`) each build a fresh
  interceptor from copies of the facade's settings and bind it to a clone of
  the channel.

The two examples, `custom_api.rs` and `custom_interceptor.rs`, plug a
caller-defined facade or interceptor into the same binding.

**`DateTime`.** This is a wrapper around a protobuf `Timestamp`
(`seconds: i64`, `nanos: i32`). The model covers:

- its lexicographic order;
- its whole-second arithmetic (`add_seconds`, `add_minutes`, `add_hours`,
  `add_days`, `add_hms`, `add_ymd`);
- construction from a civil date (`from_ymd`);
- rendering through chrono: `to_utc_string` gives an RFC 3339 `date-time`
  (section 5.6 of RFC 3339), and `to_utc_date_string` gives the `full-date`.

The older `src/datetime.rs` holds a subset of the same operations with the
same bodies, so they are modelled once.

Files:

- `wrappers.dfy`: `Option` and `Result`.
- `metadata_ext.dfy`:
  - metadata is an ordered multimap (`seq<(string, string)>`);
  - `get_all` is the observation function `ValuesOf`;
  - `SafeAppend` models `safe_append`.
- `interceptor.dfy`:
  - `InterceptorData`;
  - the `IntercemptorWithNew` + `Interceptor` capability, modelled as a
    datatype of two function values (`build`, `call`);
  - `TinkoffInterceptor::new` and `call`.
- `api.dfy`: the `InvestApi` facade and the generic client binding. The ten
  services are one enumeration and one accessor.
- `custom_api.dfy`, `custom_interceptor.dfy`: the two examples.
- `civil.dfy`: the proleptic Gregorian calendar that chrono's `NaiveDate`
  implements. It covers days from 1970-01-01 and the inverse conversion, with
  both directions proved.
- `decimal.dfy`: zero-padded decimal rendering and reading it back.
- `datetime.dfy`: `DateTime`, and chrono's acceptance rules and formats as far
  as the source relies on them.

The environment enters the model only as parameters:

- the fresh request id (`Uuid::new_v4()`) is the argument `freshId`;
- tonic's ASCII metadata-value check is the predicate `encodable`.

## Model

| member | source | states |
|---|---|---|
| `MetadataExt.SafeAppend` | src/extensions/metadata_ext.rs:17-34 | Returns true exactly when the value encodes. On success, exactly one entry `(key, value)` is appended after the existing ones, so `get_all(key)` gains `value` at the end. On failure the map is unchanged. Values under every other key are unchanged either way. |
| `MetadataExt.AppendNeverOverwrites` | src/extensions/metadata_ext.rs:25-28 | Two appends under one key keep both values, in call order (append, not insert). |
| `Interceptor.BearerValue` | src/api/v1/interceptor.rs:45-48 | The authorization value is the scheme prefix `Bearer ` (with its space) followed by the token unchanged. |
| `Interceptor.New` | src/api/v1/interceptor.rs:31-35 | `new` keeps the data it is given. |
| `Interceptor.StampsValues` | src/api/v1/interceptor.rs:45-59 | Under each key, the entries one call adds hold the bearer value, the fresh id, the app name when it is set, and nothing for any other key. Each is present only if it encodes. |
| `Interceptor.Call` | src/api/v1/interceptor.rs:37-62 | The call always returns `Ok` and leaves the interceptor unchanged. It keeps the existing metadata as a prefix and appends at most three entries, only stamp headers, in the order authorization, request id, app name. `get_all` gains the bearer value, the fresh id, and the app name only when one is set, each only if it encodes. Every other key is untouched. |
| `Interceptor.FreshRequestHeaders` | src/api/v1/interceptor.rs:42-61 | On an empty request whose values all encode, the metadata sent is exactly `authorization`, `x-request-id`, then `x-app-name` when set. |
| `Interceptor.RepeatedCallsDifferOnlyInRequestId` | src/api/v1/interceptor.rs:38-61 | A call does not change the interceptor. A second call on the same request therefore yields the same values under every key except `x-request-id`, which holds the second id. |
| `Api.MakeClient` | src/api/v1/mod.rs:40-44 | The client binding always succeeds. It keeps the requested service and the channel handle, and its interceptor is the one `new` builds from the given data. |
| `Api.WithToken` | src/api/v1/mod.rs:79-84 | `with_token` stores the token and no app name. |
| `Api.WithAppName` | src/api/v1/mod.rs:87-90 | `with_app_name` sets the app name and keeps the token. |
| `Api.WithAppNameLastWins` | src/api/v1/mod.rs:87-90 | After two `with_app_name` calls, the later name is the one stored and the token is the original. |
| `Api.GenerateClientWith` | src/api/v1/mod.rs:39-45 | The first macro arm succeeds for any interceptor type. It binds the service and channel, and its interceptor is built from the facade's token and app name. |
| `Api.GenerateClient` | src/api/v1/mod.rs:47-53 | The second macro arm is the first arm at `TinkoffInterceptor`. Its interceptor carries exactly the facade's token and app name. |
| `Api.AccessorsStampAlike` | src/api/v1/mod.rs:96-144 | All ten accessors share the channel handle. Their interceptors stamp identical headers on identical calls. |
| `Api.FacadeStampsItsCredentials` | src/api/v1/mod.rs:47-53 | A client of `with_token(t)` stamps `Bearer t` and no app name. A client of `with_token(t).with_app_name(n)` also stamps `x-app-name: n`. |
| `CustomApiExample.WithToken` | examples/custom_api.rs:33-38 | The example facade's `with_token` stores the token and no app name. |
| `CustomApiExample.WithAppName` | examples/custom_api.rs:16-19 | The example facade's `with_app_name` sets the app name and keeps the token. |
| `CustomApiExample.GetInterceptorData` | examples/custom_api.rs:44-49 | `interceptor_data` copies the facade's token and app name. |
| `CustomApiExample.Client` | examples/custom_api.rs:29 | An accessor of the example facade succeeds. It binds the service and channel, and its `TinkoffInterceptor` carries the facade's settings. |
| `CustomApiExample.SameClientsAsInvestApi` | examples/custom_api.rs:9-49 | With the same token and app name, the example facade builds exactly the clients `InvestApi` builds. |
| `CustomApiExample.AppNameHeaderIffSet` | examples/custom_api.rs:16-19 | When the name encodes, calls through the example facade's clients add one `x-app-name` value exactly when `with_app_name` was used, and none otherwise. |
| `CustomInterceptorExample.New` | examples/custom_interceptor.rs:37-41 | `CustomInterceptor::new` keeps the data it is given. |
| `CustomInterceptorExample.Call` | examples/custom_interceptor.rs:17-35 | The custom call always returns `Ok`. It keeps the metadata as a prefix and appends at most one entry, the bearer value under `authorization` (only if it encodes). Every other key is untouched. |
| `CustomInterceptorExample.WithToken` | examples/custom_interceptor.rs:62-66 | The custom facade stores the token. |
| `CustomInterceptorExample.GetInterceptorData` | examples/custom_interceptor.rs:72-76 | `interceptor_data` copies the token. |
| `CustomInterceptorExample.Client` | examples/custom_interceptor.rs:58 | An accessor of the custom facade succeeds. It binds the service and channel, and its `CustomInterceptor` carries the facade's token. |
| `CustomInterceptorExample.CustomClientStampsOnlyAuthorization` | examples/custom_interceptor.rs:17-35 | Swapping the interceptor keeps the channel and service. The custom client adds a bearer value and never a request id or an app name. |
| `Datetime.Cmp` | src/datetime/mod.rs:26-37 | `cmp` returns `Equal` exactly for equal values. Otherwise it orders by seconds, and nanos break ties (one combined key). |
| `Datetime.PartialCmp` | src/datetime/mod.rs:13-24 | The separately written `partial_cmp` always returns `Some` of what `cmp` returns. |
| `Datetime.CmpIsTotalOrder` | src/datetime/mod.rs:26-37 | `cmp` is antisymmetric, reflexive and transitive, including transitivity mixed with strict order. |
| `Datetime.FromTimestamp` | src/datetime/mod.rs:80-82 | `from_timestamp` wraps exactly the given timestamp. |
| `Datetime.GetTimestamp` | src/datetime/mod.rs:87-89 | `timestamp` returns the wrapped seconds and nanos unchanged. |
| `Datetime.TimestampRoundTrip` | src/datetime.rs:40-47 | `from_timestamp` and `timestamp` are mutually inverse. |
| `Datetime.MidnightSeconds` | src/datetime/mod.rs:66-70 | The epoch seconds of a date's midnight are a whole number of days, and that number is the date's day count from 1970-01-01. |
| `Datetime.FromYmd` | src/datetime/mod.rs:64-77 | Returns `Some` exactly for dates chrono accepts (valid Gregorian date within chrono's year range). The result has nanos 0, falls on a midnight, and its day converts back to the given date. |
| `Datetime.FromYmdVector` | src/datetime.rs:93-103 | `from_ymd(2022, 1, 1)` is 1640995200 seconds and 0 nanos, and `add_days(1)` gives 86400 seconds more. |
| `Datetime.AddSeconds` | src/datetime/mod.rs:119-124 | Moves the instant by the given seconds in the order key and keeps the nanos. |
| `Datetime.AddMinutes` | src/datetime/mod.rs:111-116 | Moves the seconds by 60 per minute and keeps the nanos. |
| `Datetime.AddHours` | src/datetime/mod.rs:127-132 | Moves the seconds by 3600 per hour and keeps the nanos. |
| `Datetime.AddDays` | src/datetime/mod.rs:135-140 | Moves the seconds by 86400 per day and keeps the nanos. |
| `Datetime.AddHms` | src/datetime/mod.rs:92-97 | Moves the seconds by `3600h + 60m + s` and keeps the nanos. |
| `Datetime.AddYmd` | src/datetime/mod.rs:100-108 | A date chrono rejects leaves the value unchanged. Otherwise the seconds of that date's midnight (what `from_ymd` returns) are added. The nanos are kept either way. |
| `Datetime.AddYmdAddsEpochInstant` | src/datetime/mod.rs:100-108 | `add_ymd` adds an instant, not a calendar duration: `add_ymd(1970, 1, 1)` is the identity, `add_ymd(1970, 1, 2)` is `add_days(1)`, and month 0 is the identity. |
| `Datetime.AddSecondsCompose` | src/datetime/mod.rs:119-124 | Two `add_seconds` calls equal one call with the sum. |
| `Datetime.AddUnitsAreSeconds` | src/datetime.rs:50-79 | `add_minutes`, `add_hours` and `add_days` are `add_seconds` of 60, 3600 and 86400 times the count. |
| `Datetime.AddHmsIsChain` | src/datetime/mod.rs:92-97 | `add_hms(h, m, s)` equals `add_hours(h)`, then `add_minutes(m)`, then `add_seconds(s)`. |
| `Datetime.AddDayIsNextMidnight` | src/datetime/mod.rs:135-140 | One `add_days(1)` after `from_ymd(d)` is `from_ymd` of the next calendar date, across month and year ends and leap days. |
| `Datetime.ToUtcString` | src/datetime/mod.rs:146-156 | Fails with `TimestampConversionError` exactly when chrono's `from_timestamp` rejects the seconds or the nanos taken as `u32`. |
| `Datetime.ToUtcDateString` | src/datetime/mod.rs:159-169 | Fails with `TimestampConversionError` under exactly the same condition as `to_utc_string`. |
| `Datetime.UtcStringExtendsDateString` | src/datetime/mod.rs:146-169 | The two conversions fail together. When they succeed, the `date-time` is the `full-date`, then `T`, and it ends in `+00:00`. |
| `Datetime.FormatYearRoundTrip` | src/datetime/mod.rs:152 | Years 0..9999 are written as four digits. Any other year is a sign and at least four digits that read back as the year. |
| `Datetime.FormatYearLength` | src/datetime/mod.rs:152 | A negative four-digit year renders in 5 characters (`-0001`), and a five-digit year of either sign in 6 (`+10000`), as the `{:+05}` width gives. |
| `Datetime.DateStringRoundTrip` | src/datetime/mod.rs:159-169 | For four-digit years the `full-date` string reads back as the civil date the instant falls on. |
| `Datetime.UtcStringRoundTrip` | src/datetime/mod.rs:146-156 | For whole seconds and four-digit years, the `date-time` string reads back as the same epoch seconds. |
| `Datetime.UtcStringVector` | src/datetime/mod.rs:186-199 | 1640995200 plus `add_hms(5, 30, 34)` renders as `2022-01-01T05:30:34+00:00`. |
| `Datetime.DateStringVector` | src/datetime/mod.rs:201-215 | 1640995200 plus `add_hours(5)` and `add_minutes(30)` has the date string `2022-01-01`. |
| `Civil.DaysBeforeYearStep` | src/datetime/mod.rs:65 | Consecutive New Years are 366 days apart in Gregorian leap years and 365 otherwise. |
| `Civil.CivilFromDays` | src/datetime/mod.rs:162-165 | Every day count converts to a valid date whose day count is that number. |
| `Civil.CivilFromDaysInverse` | src/datetime/mod.rs:64-77 | Counting a valid date's days and converting back gives the date again. |
| `Civil.DaysFromCivilInjective` | src/datetime/mod.rs:64-77 | Distinct valid dates have distinct day counts. |
| `Decimal.DecimalValueOfPad` | src/datetime/mod.rs:152 | Zero-padded decimal digits read back as the number written. |

## Left out

- The network and the runtime are not modelled: `channel.rs`, `config.rs`, `lib.rs`, the examples' `main` functions and `build_contracts.rs`. A channel is an opaque handle that accessors copy.
- `InvestApi::default` and the examples' `Default` impls are not modelled, because they read the token from the environment.
- `InvestApiTrait`, which the examples implement, is not part of this model. Its accessors are modelled as the generic binding `Api.MakeClient`, which is what `generate_client!` expands to.
- `generate_client!` calls `new(token, app_name)` with two arguments, but `IntercemptorWithNew::new` takes one `InterceptorData`. The model uses the evidently intended `new(InterceptorData { token, app_name })`.
- `Uuid::new_v4()` is not modelled. The request id is the parameter `freshId`, so its uniqueness is not claimed.
- Parsing of metadata values into `MetadataValue<Ascii>` is the parameter `encodable`. The model does not restate tonic's byte rules.
- `safe_append`'s `tracing::warn!` is left out.
- Header keys are assumed to be valid static names; tonic would panic on an invalid one.
- `DateTime::now` reads the clock and is left out.
- `Display for DateTime` is left out. It writes `to_utc_string` or, on failure, the raw `Timestamp`.
- The older `src/datetime.rs` lacks ordering and string conversion. Its operations have the same bodies as those of `src/datetime/mod.rs` and are modelled once.
- `Datetime.AddSeconds`: models a debug build, where `+=` and `*` on `i64` panic on overflow, so it requires that every intermediate value fits in `i64`; the release-build wrap-around is not modelled.
- `Datetime.AddMinutes`: models a debug build, where `+=` and `*` on `i64` panic on overflow, so it requires that every intermediate value fits in `i64`; the release-build wrap-around is not modelled.
- `Datetime.AddHours`: models a debug build, where `+=` and `*` on `i64` panic on overflow, so it requires that every intermediate value fits in `i64`; the release-build wrap-around is not modelled.
- `Datetime.AddDays`: models a debug build, where `+=` and `*` on `i64` panic on overflow, so it requires that every intermediate value fits in `i64`; the release-build wrap-around is not modelled.
- `Datetime.AddHms`: models a debug build, where `+=` and `*` on `i64` panic on overflow, so it requires that every intermediate value fits in `i64`; the release-build wrap-around is not modelled.
- `Datetime.AddYmd`: models a debug build, where `+=` and `*` on `i64` panic on overflow, so it requires that every intermediate value fits in `i64`; the release-build wrap-around is not modelled.
- chrono is modelled as of version 0.4.35 or later:
  - years from -262143 to 262142;
  - `from_timestamp` accepts nanos of 1e9 and above only as a leap second in second 59 of a minute;
  - RFC 3339 output uses 0, 3, 6 or 9 fraction digits and the offset `+00:00`.
- `Datetime.UtcStringRoundTrip`: the reading-back function covers only whole seconds and four-digit years. Fractions, leap seconds and signed years are rendered but not read back.
- `Datetime.DateStringRoundTrip`: the reading-back function covers only four-digit years.
