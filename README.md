# BasicHttpConnection: URI construction and request helpers

A Dafny model of the string and collection logic of `BasicHttpConnection`, a
small generic HTTP client of the XFServiceTest app. The client turns three
settings (`Address`, `Prefix`, `IsSecure`) and an action name into the URI a
request is sent to. Its `Extensions` helpers append query parameters, copy a
header dictionary into a request, and insert into a dictionary that may be
null.

Modules:

- `Wrappers`: C# `null` as `Option.None`, and a thrown exception as `Result.Thrown`.
- `Strings`: the .NET string operations the core uses. These are the prefix and
  suffix tests, `string.IsNullOrEmpty`, how interpolation renders null, and the
  `bool`/`int` renderings. The `int` rendering comes with a parser and a round trip.
- `Framework`: stand-ins for the request header collection, the request message
  and `Dictionary<string, string>`. These are the mutable objects the helpers change.
- `Connection`: the `BasicHttpConnection` class with its three settings as
  fields, its constructors, `ResolveHttps` and `OnUriCreating`.
- `Extensions`: `AddParameter` (one function per overload), `AddHeaders` and `WithPair`.

Nullable strings are modelled as such. A connection built without an address
has a null `Address`, and resolving it throws `NullReferenceException`; so does a
null action. A null `Prefix` is treated like an empty one.

The scheme test is the source's literal test. An address that begins with the
four letters "http" is taken to have a scheme, so `"httpbin.org"` is returned
unchanged (`LiteralSchemeTest`). The `"https"` half of the test is subsumed by
the `"http"` half. `ResolveHttps` states this as "the result equals the address
exactly when the address starts with `http`".

Header values are modelled as a list per header name. `HttpHeaders.Add` adds a
value to the values a header already has; it does not replace them. Header names
are compared without regard to case: the collection is keyed by the name folded
to lower case, so "X-Id" and "x-id" name one header. `AddHeaders` takes the
dictionary's entries in an enumeration order that is left open. Its contract
says the headers are those produced by some order that lists each key once.
Lemmas state what holds in every order:
- each header receives the same values in any order, up to their order among themselves;
- when no two keys differ only in case, the result is the same in every order;
- two keys that differ only in case feed one header, and their values follow the enumeration order.

## Model

| member | source | states |
|---|---|---|
| Connection.BasicHttpConnection.constructor | XFServiceTest/XFServiceTest/BasicHttpConnection.cs:16-23 | a new connection has a null address, a null prefix and `IsSecure` false |
| Connection.BasicHttpConnection.WithAddress | XFServiceTest/XFServiceTest/BasicHttpConnection.cs:25-28 | the address is set; the prefix stays null and `IsSecure` false |
| Connection.BasicHttpConnection.WithAddressAndPrefix | XFServiceTest/XFServiceTest/BasicHttpConnection.cs:30-33 | address and prefix are set; `IsSecure` stays false |
| Connection.BasicHttpConnection.ResolveHttps | XFServiceTest/XFServiceTest/BasicHttpConnection.cs:35-42 | throws exactly for a null address; the result starts with "http" and ends with the address; it equals the address exactly when the address starts with "http" |
| Connection.BasicHttpConnection.SchemeChosenByIsSecure | XFServiceTest/XFServiceTest/BasicHttpConnection.cs:39-41 | an address without the "http" prefix gets "https://" when `IsSecure`, otherwise "http://" |
| Connection.BasicHttpConnection.ResolveHttpsIdempotent | XFServiceTest/XFServiceTest/BasicHttpConnection.cs:37-38 | resolving an already resolved address returns it unchanged |
| Connection.BasicHttpConnection.LiteralSchemeTest | XFServiceTest/XFServiceTest/BasicHttpConnection.cs:37-38 | "httpbin.org" counts as having a scheme and is returned unchanged |
| Connection.BasicHttpConnection.OnUriCreating | XFServiceTest/XFServiceTest/BasicHttpConnection.cs:68-78 | succeeds exactly when the address and the action are non-null, and otherwise throws `NullReferenceException`; the URI begins with the resolved address and ends with the action |
| Connection.Rooted | XFServiceTest/XFServiceTest/BasicHttpConnection.cs:74-76 | the path an action contributes starts with "/" and ends with the action; it is one character longer than the action exactly when the action does not already start with "/" |
| Connection.RootedIdempotent | XFServiceTest/XFServiceTest/BasicHttpConnection.cs:74-76 | a rooted action gets no second separator |
| Connection.BasicHttpConnection.PrefixSegment | XFServiceTest/XFServiceTest/BasicHttpConnection.cs:72-73 | empty exactly when the prefix is null or empty; otherwise "/" followed by the prefix, one character longer than it |
| Connection.BasicHttpConnection.UriConcatenation | XFServiceTest/XFServiceTest/BasicHttpConnection.cs:70-76 | the URI is the resolved address, then the prefix segment (empty for a null or empty prefix, else "/" and the prefix), then the rooted action |
| Connection.BasicHttpConnection.UriLayout | XFServiceTest/XFServiceTest/BasicHttpConnection.cs:70-76 | the three parts occupy consecutive slices of the URI: the address first, then the prefix segment, then the rooted action |
| Connection.BasicHttpConnection.UriLength | XFServiceTest/XFServiceTest/BasicHttpConnection.cs:72-76 | the URI length is the resolved address's, plus 1 + the prefix's for a non-empty prefix, plus 1 unless the action starts with "/", plus the action's |
| Connection.BasicHttpConnection.PrefixFollowsBase | XFServiceTest/XFServiceTest/BasicHttpConnection.cs:72-73 | a non-empty prefix appears as "/" + prefix right after the resolved address |
| Connection.BasicHttpConnection.SameUriIffSameRootedAction | XFServiceTest/XFServiceTest/BasicHttpConnection.cs:74-76 | two actions yield the same URI exactly when they agree after rooting, so "Values" and "/Values" give the same URI |
| Connection.BasicHttpConnection.PlainAddressWithPrefix | XFServiceTest/XFServiceTest/BasicHttpConnection.cs:68-78 | "example.com", not secure, prefix "api", action "Values" give "http://example.com/api/Values" |
| Connection.BasicHttpConnection.FullAddressRootedAction | XFServiceTest/XFServiceTest/BasicHttpConnection.cs:68-78 | "https://example.com", empty prefix, action "/Values" give "https://example.com/Values" |
| Extensions.AddParameter | XFServiceTest/XFServiceTest/BasicHttpConnection.cs:145-146 | the result is the text, then '&', then the name, then '=', then the value, each in its own slice; null pieces are rendered as "" |
| Extensions.ParameterReadsBack | XFServiceTest/XFServiceTest/BasicHttpConnection.cs:145-146 | if the name holds no '&' or '=' and the value no '&', the last pair of the result reads back as (name, value) |
| Extensions.ParametersAreNotEscaped | XFServiceTest/XFServiceTest/BasicHttpConnection.cs:145-146 | nothing is escaped: name "a=b" with value "c" gives the same text as name "a" with value "b=c" |
| Extensions.AddParameterBool | XFServiceTest/XFServiceTest/BasicHttpConnection.cs:148-149 | the result is the text, '&', the name, '=' and then "True" or "False" according to the value, each in its own slice |
| Extensions.BoolParameterReadsBack | XFServiceTest/XFServiceTest/BasicHttpConnection.cs:148-149 | if the name holds no '&' or '=', the last pair of the result reads back as the name and "True" or "False" |
| Strings.BoolText | XFServiceTest/XFServiceTest/BasicHttpConnection.cs:148-149 | a boolean is rendered as "True" exactly when it is true, and as "False" otherwise |
| Extensions.AddParameterInt | XFServiceTest/XFServiceTest/BasicHttpConnection.cs:151-152 | the result is the text, '&', the name, '=' and the decimal rendering of the value, each in its own slice; the numeral reads back as the value |
| Extensions.IntParameterReadsBack | XFServiceTest/XFServiceTest/BasicHttpConnection.cs:151-152 | if the name holds no '&' or '=', the last pair of the result reads back as the name and a numeral that denotes the value |
| Strings.DecimalText | XFServiceTest/XFServiceTest/BasicHttpConnection.cs:151-152 | the rendering starts with '-' exactly for a negative number; the rest is a non-empty run of digits that starts with '0' only for zero; zero is rendered as exactly "0", so there is no "00", no "-0" and no leading zero |
| Strings.DecimalRoundTrip | XFServiceTest/XFServiceTest/BasicHttpConnection.cs:151-152 | the decimal rendering of any integer parses back to that integer |
| Strings.NatDigits | XFServiceTest/XFServiceTest/BasicHttpConnection.cs:151-152 | the rendering of a natural number is a non-empty run of digits; it starts with '0' only for zero, and zero is rendered as exactly "0" |
| Framework.HeaderKey | XFServiceTest/XFServiceTest/BasicHttpConnection.cs:158 | a header name is stored under its ASCII lower-case folding, of the same length |
| Framework.HeaderNamesIgnoreCase | XFServiceTest/XFServiceTest/BasicHttpConnection.cs:158 | "X-Id" and "x-id" name the same header |
| Framework.Appended | XFServiceTest/XFServiceTest/BasicHttpConnection.cs:158 | adding a value under a name appends it to the values of the header that name folds to, whatever case either was written in; every other header is unchanged, and keys stay folded |
| Framework.RequestHeaders.Add | XFServiceTest/XFServiceTest/BasicHttpConnection.cs:158 | the header collection afterwards is the old one with the value appended under the folded name |
| Framework.RequestMessage.constructor | XFServiceTest/XFServiceTest/BasicHttpConnection.cs:63 | a new request has the given method, the URI as text (its parse is not modelled), and a fresh, empty header collection |
| Extensions.AddedInOrderFolded | XFServiceTest/XFServiceTest/BasicHttpConnection.cs:157-158 | adding entries in any order keeps every header key a folded name, so case variants never become separate headers |
| Extensions.AddedInOrderKeys | XFServiceTest/XFServiceTest/BasicHttpConnection.cs:156-158 | after the additions the header keys are the old keys plus the folded names of the dictionary's keys |
| Extensions.AddedInOrderValues | XFServiceTest/XFServiceTest/BasicHttpConnection.cs:156-158 | after the additions each header holds its old values followed by the values of the entries whose names fold to it, in enumeration order |
| Extensions.EveryEntryAdded | XFServiceTest/XFServiceTest/BasicHttpConnection.cs:157-158 | every entry's value is among the values of the header its name folds to |
| Extensions.OtherHeadersUnchanged | XFServiceTest/XFServiceTest/BasicHttpConnection.cs:157-158 | a header that no dictionary key folds to keeps exactly the values it had, and is present exactly when it was before |
| Extensions.ValuesForAnyOrder | XFServiceTest/XFServiceTest/BasicHttpConnection.cs:157-158 | any two enumeration orders give each header the same multiset of added values |
| Extensions.DistinctNamesAnyOrder | XFServiceTest/XFServiceTest/BasicHttpConnection.cs:157-158 | when no two dictionary keys differ only in case, every enumeration order gives the same headers |
| Extensions.CaseVariantsShareOneHeader | XFServiceTest/XFServiceTest/BasicHttpConnection.cs:157-158 | keys "X-Id" and "x-id" feed one header, whose values follow the enumeration order: ["1","2"] in one order and ["2","1"] in the other |
| Extensions.AddHeaders | XFServiceTest/XFServiceTest/BasicHttpConnection.cs:154-160 | requires and keeps the collection's invariant that every header key is a folded name; returns the same request; for a null dictionary the headers are unchanged; otherwise they are the old headers with the entries added in some order that lists each key once, and an empty dictionary changes nothing |
| Framework.Inserted | XFServiceTest/XFServiceTest/BasicHttpConnection.cs:166 | `Dictionary.Add` throws `ArgumentNullException` for a null key and `ArgumentException` for a key already present; otherwise the entries gain exactly that key with that value and keep all others |
| Framework.Dictionary.Add | XFServiceTest/XFServiceTest/BasicHttpConnection.cs:166 | the entries become the inserted map, or stay as they were when the call throws |
| Framework.Dictionary.constructor | XFServiceTest/XFServiceTest/BasicHttpConnection.cs:165 | a new dictionary is empty |
| Extensions.WithPair | XFServiceTest/XFServiceTest/BasicHttpConnection.cs:162-168 | succeeds exactly when the key is non-null and new. A null dictionary yields a fresh one holding exactly {key: value}. A non-null dictionary is returned itself, with the pair added and all other entries unchanged. On a throw its entries are unchanged, and the error is `ArgumentNull` or `DuplicateKey` |

## Left out

- `Get<T>` and `Post<T>` (BasicHttpConnection.cs:80-116) are left out: asynchronous network dispatch, response streams and disposal are I/O.
- `CreateHttpClientHandler` and `OnHttpClientCreating` (lines 44-59) are left out. They configure library objects: a certificate callback that accepts everything, and the default `Accept: application/json` header.
- `OnHttpRequestMessageCreating` (lines 61-66) is not modelled as a member. It only builds a request (`Framework.RequestMessage.constructor`, without the URI parse noted below) and calls `AddHeaders`.
- The JSON members `JsonSerialize`, `JsonSerializeAsync`, `DeserializeJsonAsync` and `DeserializeJson` (lines 118-140) are left out. They delegate to Newtonsoft.Json and `Task.Run`, which are not part of this model. Among them is the guard that returns the default value for a null or unreadable stream.
- MainPage.xaml.cs is UI code and is not part of this model.
- Connection.BasicHttpConnection.ResolveHttps: `String.StartsWith(string)` is culture-sensitive in .NET. The model uses an ordinal prefix test. It agrees with .NET on text the culture neither ignores (such as `\0`) nor contracts (such as "ch" in Czech).
- Connection.BasicHttpConnection.OnUriCreating: the `action.StartsWith("/")` test is modelled as ordinal, for the same reason.
- Extensions.AddHeaders: the header-name and header-value validation done by `HttpRequestHeaders.Add` is not modelled. So the exceptions it raises are not modelled either: for invalid names, for content-only headers, and for a second value of a single-value header such as `Authorization`. A null request is not modelled; the only caller never passes one.
- Extensions.AddParameterInt: `int.ToString()` is modelled for a culture whose negative sign is "-".
- Framework.RequestMessage.constructor: the URI is kept as text. The parse that `new HttpRequestMessage(method, uri)` performs on it is not modelled, and neither is the `UriFormatException` that parse throws for malformed text.
- Framework.Dictionary: null values are not modelled; keys may be null.
- The enumeration order of `Dictionary` is left open, and `AddHeaders` takes the keys in any order. The result depends on that order only when two keys differ only in case. Such keys feed one header, and their values follow the enumeration order.
- Framework.HeaderKey: names are folded with ASCII case folding only. Names outside ASCII are rejected by header validation, which is not modelled. The original casing that .NET keeps for display is not modelled either.
