# Greeting service and authentication gate, modelled in Dafny

This project models the two components of the `GrpcService1` gRPC server that carry its logic:

- **GreeterService**: six call handlers over the `GreetingLogs` table. The handlers are `CreateEvent`, `GetGreeter`, `GetManyGreeters`, `UpdateGreeter`, `DeleteGreeter` and `SayGoodBye`.
- **GrpcAuthInterceptor.UnaryServerHandler**: the guard chain that forwards or rejects each unary call.

The files are:

- `rpc.dfy` (module `Rpc`): status codes and `Result`. A `Fail` value stands for a thrown `RpcException`.
- `seqs.dfy` (module `Seqs`): `Option` and `FirstIndex`. `FirstIndex` is the first-match search behind every `FirstOrDefault` query.
- `text.dfy` (module `Text`): decimal rendering of integers, with its inverse. It also holds ASCII case-insensitive comparison and the ordinal prefix and suffix tests.
- `greetings.dfy` (module `Greetings`): records, requests and replies as values. It holds the messages the service composes and the table-level meaning of create, update and delete, with their lemmas.
- `greeter.dfy` (module `Greeter`): class `GreeterService`. The table is its field `logs: seq<Record>`, in store order. `nextId` is the next identity value the database assigns. Mutating handlers are methods with `modifies this`. `GetGreeter` is a `reads this` function. `GetManyGreeters` returns the server stream as a sequence of replies, built by a loop.
- `auth.dfy` (module `Auth`): the interceptor as functions over a per-call context value. The context holds the method name, the metadata, and the HTTP context's Authorization header and user. JWT validation is the function parameter `authenticate`. It receives the Authorization value the interceptor has just stored on the HTTP context. The rest of the pipeline is the function parameter `continuation`.

Two behaviours of the code are easy to misread:

- `GetGreeter` on an unknown id fails with `Internal` "Failed to retrieve Greeter.", not `NotFound`. The `NotFound` raised by the `?? throw` is inside the `try` and is caught by the catch-all.
- The welcome-back message ends with `!`.

## Model

| member | source | states |
|---|---|---|
| `Seqs.FirstIndex` | GrpcService1/Services/GreeterService.cs:22-23 | The index returned holds the first element satisfying the predicate. None is returned exactly when no element satisfies it. |
| `Text.DecimalRoundTrip` | GrpcService1/Services/GreeterService.cs:46 | Reading back the decimal rendering of a natural number gives that number. |
| `Text.NatToDecimal` | GrpcService1/Services/GreeterService.cs:46 | The rendering is a non-empty digit string, with no leading zero unless the number is 0. |
| `Text.IntRoundTrip` | GrpcService1/Services/GreeterService.cs:150 | Parsing the rendering of any int, with a minus sign for negatives, gives the int back. |
| `Text.IntToDecimalInjective` | GrpcService1/Services/GreeterService.cs:184 | Distinct ints render to distinct strings. |
| `Text.EqualsIgnoreCaseIffUpperEqual` | GrpcService1/Services/GrpcAuthInterceptor.cs:42 | Ordinal ignore-case equality holds exactly when the ASCII upper-cased strings are equal. |
| `Greetings.ConfirmationsNameTheirId` | GrpcService1/Services/GreeterService.cs:150-184 | The "updated", "deleted" and "not found" messages each determine the id they were built from. |
| `Greetings.IndexOfIdExact` | GrpcService1/Services/GreeterService.cs:121-123 | With increasing ids, the id lookup finds exactly the row that carries the id. |
| `Greetings.GreetingFor` | GrpcService1/Services/GreeterService.cs:21-47 | With no stored row of the requested name, the message is "Hello {name}, age {age}, from {city}" from the request. Otherwise it is "Welcome back, {name} from {city}!" from the first such row in store order. |
| `Greetings.WelcomeBackUsesStoredCity` | GrpcService1/Services/GreeterService.cs:40-43 | A stored Ann from Paris and a request Ann, 5, Rome give "Welcome back, Ann from Paris!". |
| `Greetings.AppendedRowFound` | GrpcService1/Services/GreeterService.cs:50-59 | A row appended with a fresh, larger id keeps ids increasing. The id lookup then finds it at the end. |
| `Greetings.Updated` | GrpcService1/Services/GreeterService.cs:121-136 | An update keeps the table size, every id and every stored message. Rows with another id are unchanged. |
| `Greetings.UpdatedRow` | GrpcService1/Services/GreeterService.cs:125-136 | The target row takes a name or city only when it is non-empty, and an age only when it is positive. Its id and message stay as they were. |
| `Greetings.UpdateIdempotent` | GrpcService1/Services/GreeterService.cs:125-136 | Applying the same update twice gives the same table as applying it once. |
| `Greetings.Deleted` | GrpcService1/Services/GreeterService.cs:166-170 | An unknown id leaves the table unchanged. A known id shrinks it by exactly one. |
| `Greetings.RemoveAtKeepsOrder` | GrpcService1/Services/GreeterService.cs:170 | Removing one row keeps the remaining rows in increasing-id order. |
| `Greetings.RemoveAtMembers` | GrpcService1/Services/GreeterService.cs:170 | After removing one row, the rows left are exactly the rows with a different id. |
| `Greetings.DeletedRows` | GrpcService1/Services/GreeterService.cs:166-170 | After a delete, the rows left are exactly the other rows, still in increasing-id order. |
| `Greetings.DeleteIsFinal` | GrpcService1/Services/GreeterService.cs:166-168 | After a delete the id is no longer found, so deleting it again fails NotFound. |
| `Greeter.GreeterService.CreateEvent` | GrpcService1/Services/GreeterService.cs:19-70 | Name, age and city are checked in that order, and the first failure gives its own InvalidArgument detail. A failure leaves the store unchanged. On success exactly one row is appended, even when the name already exists, and the next id advances by one. The new row has a fresh id, the request's fields and the chosen message. The reply echoes the request, and GetGreeter on the new id returns that same reply. |
| `Greeter.GreeterService.GetGreeter` | GrpcService1/Services/GreeterService.cs:72-92 | A stored id gives that row's stored message, name, age and city. An unknown id gives Internal "Failed to retrieve Greeter.". The store is only read. |
| `Greeter.GreeterService.GetManyGreeters` | GrpcService1/Services/GreeterService.cs:94-112 | The stream has min(max(count, 0), table size) replies. They are the first rows in store order, each with message "Hello from {name}!" and the row's name, age and city. |
| `Greeter.GreeterService.UpdateGreeter` | GrpcService1/Services/GreeterService.cs:114-157 | An id <= 0 gives InvalidArgument "Invalid ID.". An unknown id gives NotFound "Greeter with ID {id} not found.". A failed save gives Internal. Every failure leaves the store unchanged. It succeeds exactly when the id is positive, present and the save goes through. The table then becomes `Updated` of the old one, and the reply carries the row's post-update fields and the "updated successfully!" message. |
| `Greeter.GreeterService.DeleteGreeter` | GrpcService1/Services/GreeterService.cs:159-188 | The error cases and their order match UpdateGreeter, and every failure leaves the store unchanged. It succeeds exactly when the id is positive, present and the save goes through. The table then becomes `Deleted` of the old one, one row shorter. The reply names the id in "has been deleted successfully!". |
| `Greeter.GreeterService.SayGoodBye` | GrpcService1/Services/GreeterService.cs:190-198 | The reply is "Goodbye, " then the name then ". See you next time!". The name can be read back from a fixed position. |
| `Auth.AuthorizationValue` | GrpcService1/Services/GrpcAuthInterceptor.cs:41-42 | The value returned belongs to the first header whose key equals "authorization" ignoring case. Later duplicates are ignored. None means no such header. |
| `Auth.DecisionCases` | GrpcService1/Services/GrpcAuthInterceptor.cs:33-57 | Bypass happens exactly when the method ends with "greet.Greeter/Login", ignoring case. A header rejection happens exactly when the first authorization value is missing or lacks the case-sensitive "Bearer " prefix. A token rejection happens exactly when that value has the prefix and fails validation. Admission happens exactly when it passes, with that value and its principal. |
| `Auth.BypassForwardsUnchanged` | GrpcService1/Services/GrpcAuthInterceptor.cs:33-36 | An exempt method's result is the continuation's, on the unchanged context, whatever the headers. |
| `Auth.RejectionIgnoresContinuation` | GrpcService1/Services/GrpcAuthInterceptor.cs:44-57 | A rejected call's result does not depend on the continuation. It is Unauthenticated with "Missing or invalid Authorization header" or "Invalid or expired token". |
| `Auth.AdmissionForwardsResult` | GrpcService1/Services/GrpcAuthInterceptor.cs:50-66 | An admitted call returns exactly the continuation's result. The continuation runs on the same request, with the validated header and the principal bound to the context. |
| `Auth.GateSoundness` | GrpcService1/Services/GrpcAuthInterceptor.cs:33-66 | If a non-exempt call's outcome depends on the continuation, then its first authorization value starts with "Bearer " and passed validation. |

## Left out

- `ClientLoggingInterceptor` is not part of this model. It only logs, times with a stopwatch and serializes JSON, and it returns or rethrows the continuation's outcome unchanged.
- JWT validation (`AuthenticateAsync` with the bearer scheme) is a library call. It is the abstract parameter `authenticate`, so issuer, audience, expiry and signature checks are not modelled.
- `Program.cs` (hosting, dependency injection) and `AppDbContext.cs` (table mapping) are not part of this model. `Program.cs` registers neither interceptor, so no interceptor chain order is modelled.
- Logging calls, `async`/`Task` plumbing, stream send failures and cancellation are not modelled.
- `Greeter.GreeterService.CreateEvent`: a failure of `SaveChangesAsync` is not caught by the handler. It would surface as a generic server error and is not modelled.
- `Greeter.GreeterService.UpdateGreeter`: the tracked entity is changed in memory before the save. The model replaces the row at its position once the save succeeds. EF change tracking is not modelled.
- `Greeter.GreeterService.UpdateGreeter` and `Greeter.GreeterService.DeleteGreeter` model the persistence failure as the flag `saveFails`, without its cause.
- `Greeter.GreeterService.GetManyGreeters` gives `Take` its in-memory meaning, where a negative count takes nothing. It does not model how the database translates a negative `TOP`.
- Store order is insertion order, with ids increasing along it. The queries have no `ORDER BY`, so the database's actual row order is not modelled.
- `Greetings.GreetingFor` compares names with exact string equality. A database collation that ignores case or trailing spaces is not modelled.
- Ids, ages and counts are unbounded integers. The 32-bit `int` width of the protobuf fields and identity-column overflow are not modelled.
- `Text.EqualsIgnoreCase` folds ASCII letters only. The non-ASCII case mappings of ordinal ignore-case comparison are not modelled.
- `Text.StartsWith` is an ordinal prefix test. `StartsWith(string)` without a comparison argument is culture-sensitive in .NET, and culture-specific ignorable characters are not modelled.
- A null `HttpContext` (the `!` at GrpcAuthInterceptor.cs:50) is not modelled. The model assumes it is present.
- The continuation is a function, so "invoked exactly once" holds by construction rather than being stated as a count.
