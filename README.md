# golf-api authorisation and cursor pagination, in Dafny

This project models the part of the golf API service that has real logic:

- **Role expansion and effective permissions** (`security/auth_roles.py`).
  - A user holds role names and per-permission allow/deny overrides.
  - `expand_roles` closes the valid role names under the role hierarchy. It grows a visited set through the recursive `add_role`.
  - `get_effective_permissions` unions the permissions of the expanded roles, then applies the overrides.
  - Both are imperative methods here, proved equal to reference definitions: `Close`, the least closed superset of the roots, and `EffectivePermissions`.
- **The scope check** of `require_scoped_permission` (`security/permissions.py`).
  - A scope is granted when it is held exactly, or when the wildcard `<text before the first ':'>:*` is held.
  - Otherwise the request fails with 403, and the detail names the scope.
- **The cursor pagination helper** (`utils/firestore_pagination.py`).
  - The cursor codec is modelled concretely:
    - compact `json.dumps` with `ensure_ascii` escapes, including surrogate pairs;
    - a `json.loads` of flat objects;
    - UTF-8;
    - URL-safe base64 (section 5 of RFC 4648), with CPython's lenient decoder.
  - Datetimes travel as UTC ISO-8601 strings.
  - `paginate_next_async` is an imperative method. It is proved equal to the function `Paginate`, and the lemmas state its properties:
    - argument checks;
    - page contents;
    - when a next cursor exists;
    - the cursor's payload;
    - that following the cursor resumes after the last item;
    - every error path.

Modules, one per file:

| module | file | models |
|---|---|---|
| `Wrappers` | `wrappers.dfy` | `Option` and `Result` |
| `Bytes` | `bytes.dfy` | the byte type |
| `Permissions` | `permissions.dfy` | the `Roles` and `UserPermissions` enums |
| `AuthRoles` | `auth_roles.dfy` | the hierarchy, `expand_roles`, `get_effective_permissions` |
| `ScopedPermission` | `scoped_permission.dfy` | `require_scoped_permission` |
| `Dicts` | `dicts.dfy` | an insertion-ordered Python `dict` with string keys |
| `Base64Url` | `base64url.dfy` | `urlsafe_b64encode` and `urlsafe_b64decode` |
| `Utf8` | `utf8.dfy` | `str.encode` and `bytes.decode` |
| `Json` | `json.dfy` | compact `json.dumps` and `json.loads` of flat objects |
| `Cursor` | `cursor.dfy` | `_json_default`, `_maybe_parse_datetime`, `encode_cursor`, `decode_cursor` |
| `Pagination` | `pagination.dfy` | `paginate_next_async` |

Three things are parameters rather than code:

- Firestore. A query is a `Query` value that records its ordering clauses, its `start_after` values and its limit. `fetch: Query -> seq<Document>` stands for streaming it.
- `datetime.isoformat` / `fromisoformat`. These are an `IsoCodec` parameter. The predicate `ValidIso` states what the round trip relies on.
- The user record. It is a `User` value holding the `roles` and `permissions` fields that the authorisation code reads.

## Model

| member | source | states |
|---|---|---|
| Permissions.ParseRole | apps/golf-api/src/golf_api/permissions.py:4-9 | `Roles(s)` yields the role whose value is `s`, and fails exactly when no role has that value |
| Permissions.ParseRoleName | apps/golf-api/src/golf_api/permissions.py:4-9 | the role values are distinct, so parsing a role's value gives back that role |
| AuthRoles.CloseIsLeastClosedSuperset | apps/golf-api/src/golf_api/security/auth_roles.py:35-39 | the reference expansion contains the roots, is closed under the hierarchy, and lies inside every closed superset of the roots |
| AuthRoles.LeastClosedSupersetIsClose | apps/golf-api/src/golf_api/security/auth_roles.py:35-39 | any set with those three properties is the reference expansion |
| AuthRoles.CloseMonotone | apps/golf-api/src/golf_api/security/auth_roles.py:35-39 | expanding more roots never loses a role |
| AuthRoles.AddRole | apps/golf-api/src/golf_api/security/auth_roles.py:35-39 | `add_role` adds the role and closes every newly added role under the hierarchy, adding nothing outside any closed set that holds the role and the old set; it terminates on every hierarchy, cyclic ones included, because each recursive call has fewer roles left to add |
| AuthRoles.ExpandRoles | apps/golf-api/src/golf_api/security/auth_roles.py:29-48 | the result holds every valid role name, is closed under the hierarchy, holds only roles reachable from valid names, and equals the reference expansion; invalid names are skipped |
| AuthRoles.ApplyOverrides | apps/golf-api/src/golf_api/security/auth_roles.py:66-73 | an overridden permission is held exactly when its override is true; any other permission is held exactly when the base set holds it |
| AuthRoles.RolePermissionUnionAdd | apps/golf-api/src/golf_api/security/auth_roles.py:61-64 | adding one role's permissions to the running union gives the union over one more role |
| AuthRoles.GetEffectivePermissions | apps/golf-api/src/golf_api/security/auth_roles.py:51-75 | overrides decide their permissions outright; any other permission is held exactly when some expanded role grants it; the result is `EffectivePermissions(user)` |
| AuthRoles.AdminExpandsToAllRoles | apps/golf-api/src/golf_api/security/auth_roles.py:11-15 | with the shipped hierarchy, `['admin']` expands to exactly admin, writer and reader |
| AuthRoles.WriterReaderExcludesAdmin | apps/golf-api/src/golf_api/security/auth_roles.py:11-15 | `['writer', 'reader']` expands to exactly writer and reader, so admin is not reached |
| AuthRoles.InvalidNamesIgnored | apps/golf-api/src/golf_api/security/auth_roles.py:41-46 | appending strings that name no role changes neither the valid roles nor their expansion |
| AuthRoles.OverrideOnlyUser | apps/golf-api/src/golf_api/security/auth_roles.py:66-73 | a user with no roles and the single override `users:read = true` holds exactly `users:read` |
| AuthRoles.AdminHoldsUsersWildcard | apps/golf-api/src/golf_api/security/auth_roles.py:20-26 | a user holding `admin`, with no override denying `users:*`, holds `users:*` |
| AuthRoles.MoreRolesNeverRevoke | apps/golf-api/src/golf_api/security/auth_roles.py:57-64 | adding role names to a user never removes an effective permission |
| ScopedPermission.Head | apps/golf-api/src/golf_api/security/permissions.py:16 | `scope.split(":")[0]` is a prefix of the scope with no `:`, followed in the scope by `:` when shorter |
| ScopedPermission.RequireScopedPermission | apps/golf-api/src/golf_api/security/permissions.py:13-22 | access is granted iff the scope or `<head>:*` is among the effective permissions; on grant the same user is returned; on deny the error is 403 with detail `User does not have the required scope: <scope>` |
| ScopedPermission.HeadBeforeColon | apps/golf-api/src/golf_api/security/permissions.py:16 | the head of `prefix:rest` is `prefix` when `prefix` has no `:` |
| ScopedPermission.WildcardWithoutColon | apps/golf-api/src/golf_api/security/permissions.py:16 | for a scope without `:`, the wildcard checked is the whole scope followed by `:*` |
| ScopedPermission.UsersWildcardGrantsUsersScopes | apps/golf-api/src/golf_api/security/permissions.py:16 | holding `users:*` grants every `users:`-prefixed scope |
| ScopedPermission.AdminMayDoAnyUsersAction | apps/golf-api/src/golf_api/security/permissions.py:15-17 | an admin without a deny override on `users:*` is granted every `users:` action |
| ScopedPermission.GrantsMonotone | apps/golf-api/src/golf_api/security/permissions.py:16 | adding permissions never turns a grant into a deny |
| ScopedPermission.WildcardStaysInResource | apps/golf-api/src/golf_api/security/permissions.py:16 | the wildcard of one resource grants no scope of another |
| Base64Url.Encode | apps/golf-api/src/golf_api/utils/firestore_pagination.py:43 | the encoding has four ASCII characters per started group of three bytes |
| Base64Url.EncodeWholeGroups | apps/golf-api/src/golf_api/utils/firestore_pagination.py:43 | the encoding, padding included, is made of whole groups of four characters |
| Base64Url.DecodeGroup | apps/golf-api/src/golf_api/utils/firestore_pagination.py:47 | a full group of four characters decodes to its three bytes, and decoding then continues afresh |
| Base64Url.DecodeEncode | apps/golf-api/src/golf_api/utils/firestore_pagination.py:43-47 | `urlsafe_b64decode(urlsafe_b64encode(b)) == b` for all bytes |
| Base64Url.DataNeedsWholeGroups | apps/golf-api/src/golf_api/utils/firestore_pagination.py:47 | input made only of data characters decodes only when they fill whole groups of four |
| Base64Url.PartialGroupUndecodable | apps/golf-api/src/golf_api/utils/firestore_pagination.py:47 | data characters whose count is not a multiple of four fail to decode |
| Utf8.DecodeChar | apps/golf-api/src/golf_api/utils/firestore_pagination.py:48 | a decoded character takes between one byte and the bytes available |
| Utf8.DecodeEncodeChar | apps/golf-api/src/golf_api/utils/firestore_pagination.py:42-48 | the bytes of one character decode to that character, whatever follows them |
| Utf8.DecodeEncode | apps/golf-api/src/golf_api/utils/firestore_pagination.py:42-48 | `s.encode().decode() == s` for every string |
| Json.NatDigitsValue | apps/golf-api/src/golf_api/utils/firestore_pagination.py:40-48 | the decimal digits written for a natural number read back as that number |
| Json.ParseNumberInt | apps/golf-api/src/golf_api/utils/firestore_pagination.py:40-48 | an integer as `json.dumps` writes it, negative or not, reads back as itself when what follows cannot continue a number |
| Json.ParseBmpEscape | apps/golf-api/src/golf_api/utils/firestore_pagination.py:40-48 | a `\uXXXX` escape of a Basic Multilingual Plane character reads back as that character |
| Json.ParseSurrogatePair | apps/golf-api/src/golf_api/utils/firestore_pagination.py:40-48 | the surrogate pair written for a character beyond the Basic Multilingual Plane reads back as that one character |
| Json.ParseEscapeChar | apps/golf-api/src/golf_api/utils/firestore_pagination.py:40-48 | every escape `json.dumps` writes reads back as the character it stands for |
| Json.ParseQuoted | apps/golf-api/src/golf_api/utils/firestore_pagination.py:40-48 | a string written by `json.dumps` reads back as itself, up to its closing quote |
| Json.ParseDumpedValue | apps/golf-api/src/golf_api/utils/firestore_pagination.py:40-48 | every null, boolean, integer or string written by `json.dumps` reads back as itself |
| Json.ParseDumpedMembers | apps/golf-api/src/golf_api/utils/firestore_pagination.py:40-48 | the members of a written object read back in order, each appended to those read so far |
| Json.LoadsDumps | apps/golf-api/src/golf_api/utils/firestore_pagination.py:40-48 | `json.loads(json.dumps(d)) == d` for a flat dict with distinct keys |
| Cursor.JsonDefault | apps/golf-api/src/golf_api/utils/firestore_pagination.py:19-24 | a datetime becomes the ISO string of its instant in UTC, a naive one read as UTC, and that string parses back to the same UTC datetime; any other object fails with the `TypeError` message `Not JSON serializable: <class '...'>` naming its type |
| Cursor.ToJson | apps/golf-api/src/golf_api/utils/firestore_pagination.py:40-42 | a value can be written exactly when it is JSON-native or a datetime |
| Cursor.EncodeCursor | apps/golf-api/src/golf_api/utils/firestore_pagination.py:39-43 | encoding succeeds exactly when every value can be serialised, and gives whole groups of four base64 characters; `Cursor.DecodeEncode` shows that decoding inverts it |
| Cursor.DecodeCursor | apps/golf-api/src/golf_api/utils/firestore_pagination.py:46-49 | a decoded cursor holds only JSON values and datetimes in UTC; `Cursor.DecodeEncode` shows that it inverts encoding |
| Cursor.ToUtc | apps/golf-api/src/golf_api/utils/firestore_pagination.py:21-23 | converting to UTC keeps the instant and sets the offset to zero, with a naive datetime read as UTC |
| Cursor.ToJsonObject | apps/golf-api/src/golf_api/utils/firestore_pagination.py:40-42 | serialising a dict keeps its keys, and succeeds exactly when every value can be written |
| Cursor.ReplaceZ | apps/golf-api/src/golf_api/utils/firestore_pagination.py:30 | after `replace('Z', '+00:00')` no `Z` is left |
| Cursor.MaybeParseDatetime | apps/golf-api/src/golf_api/utils/firestore_pagination.py:27-36 | a value is only ever changed when it is a string containing `T`, and then into a UTC datetime |
| Cursor.ParseValues | apps/golf-api/src/golf_api/utils/firestore_pagination.py:49 | the comprehension keeps the keys and their order |
| Cursor.ValueRoundTrip | apps/golf-api/src/golf_api/utils/firestore_pagination.py:19-35 | a serialisable value that is not an ISO-looking string comes back as itself, and a datetime comes back as the same instant in UTC |
| Cursor.ParseValuesRoundTrip | apps/golf-api/src/golf_api/utils/firestore_pagination.py:40-49 | the same, entry by entry, for a whole dict |
| Cursor.DecodeEncode | apps/golf-api/src/golf_api/utils/firestore_pagination.py:39-49 | `decode_cursor(encode_cursor(d))` gives back `d`, datetimes normalised to UTC, for a dict with distinct keys whose values are serialisable and are not strings that parse as ISO datetimes |
| Cursor.DatetimeRoundTrip | apps/golf-api/src/golf_api/utils/firestore_pagination.py:19-33 | a datetime comes back as the same instant in UTC; a naive one comes back as if written in UTC |
| Cursor.IsoLookingStringComesBackAsTime | apps/golf-api/src/golf_api/utils/firestore_pagination.py:27-35 | a string containing `T` that parses as a datetime comes back as a datetime, not a string |
| Cursor.EncodeRejectsUnserializable | apps/golf-api/src/golf_api/utils/firestore_pagination.py:19-24 | encoding fails with the `TypeError` message of the first value that cannot be serialised |
| Cursor.ToJsonObjectFailure | apps/golf-api/src/golf_api/utils/firestore_pagination.py:40-42 | serialisation stops at the first value that cannot be serialised, with its message |
| Cursor.PartialGroupInvalid | apps/golf-api/src/golf_api/utils/firestore_pagination.py:46-48 | a cursor of base64 data characters that do not fill whole groups of four fails to decode |
| Pagination.ApplyOrdering | apps/golf-api/src/golf_api/utils/firestore_pagination.py:88-97 | the ordering loop appends one clause per `order_by` entry, in order |
| Pagination.OrderClausesDirections | apps/golf-api/src/golf_api/utils/firestore_pagination.py:89-97 | each clause orders on its entry's field, ascending exactly for `'asc'` and `ASCENDING` |
| Pagination.CursorValues | apps/golf-api/src/golf_api/utils/firestore_pagination.py:106-121 | the cursor-reading loop computes `StartValues`, stopping at the first missing field |
| Pagination.StartValuesPrefixFailure | apps/golf-api/src/golf_api/utils/firestore_pagination.py:109-110 | once a field is missing, the fields after it do not change the error |
| Pagination.StartValuesSucceed | apps/golf-api/src/golf_api/utils/firestore_pagination.py:108-110 | reading a decoded cursor succeeds iff it holds every order-by field |
| Pagination.StartValueAt | apps/golf-api/src/golf_api/utils/firestore_pagination.py:108-121 | the start values are one per order-by field, in order: the cursor's value, or the document reference for `__name__` |
| Pagination.StartValuesFirstMissing | apps/golf-api/src/golf_api/utils/firestore_pagination.py:108-110 | the error names the first order-by field the cursor lacks |
| Pagination.StartAfter | apps/golf-api/src/golf_api/utils/firestore_pagination.py:99-121 | no cursor or an empty one gives no start; an undecodable one gives `Invalid cursor`; otherwise the start values or the missing-field error |
| Pagination.EmptyCursorUndecodable | apps/golf-api/src/golf_api/utils/firestore_pagination.py:100 | an empty cursor does not decode, so it is the `if cursor:` guard that makes it mean the first page rather than `Invalid cursor` |
| Pagination.CollectDocuments | apps/golf-api/src/golf_api/utils/firestore_pagination.py:123-131 | the stream loop keeps every document's data, `{}` for a missing one, paired with its document, in stream order |
| Pagination.BuildPayload | apps/golf-api/src/golf_api/utils/firestore_pagination.py:143-153 | the payload loop computes `CursorPayload`, stopping at the first field the last item lacks |
| Pagination.CursorPayloadPrefixFailure | apps/golf-api/src/golf_api/utils/firestore_pagination.py:149-152 | once a field is missing, the fields after it do not change the error |
| Pagination.CursorPayloadSucceeds | apps/golf-api/src/golf_api/utils/firestore_pagination.py:145-153 | the payload is built iff every order-by field is `__name__` or a key of the item's data |
| Pagination.CursorPayloadDistinct | apps/golf-api/src/golf_api/utils/firestore_pagination.py:143-153 | a built payload never repeats a key |
| Pagination.CursorPayloadKeys | apps/golf-api/src/golf_api/utils/firestore_pagination.py:143-153 | the keys of a built payload are exactly the order-by field names |
| Pagination.CursorPayloadValue | apps/golf-api/src/golf_api/utils/firestore_pagination.py:145-153 | each order-by field maps to the last item's value for it, and `__name__` to the item's path |
| Pagination.CursorPayloadFirstMissing | apps/golf-api/src/golf_api/utils/firestore_pagination.py:149-152 | the error names the first order-by field the last item lacks |
| Pagination.PayloadEntriesCarried | apps/golf-api/src/golf_api/utils/firestore_pagination.py:143-153 | every payload entry holds one of the item's values, so the cursor carries it when they all can be carried |
| Pagination.PayloadRoundTrip | apps/golf-api/src/golf_api/utils/firestore_pagination.py:141-155 | the next cursor decodes to the payload: each order-by field maps to the last item's value, normalised to UTC |
| Pagination.TrimPage | apps/golf-api/src/golf_api/utils/firestore_pagination.py:123-157 | collecting, trimming and building the cursor compute `CutPage` |
| Pagination.CutPageContents | apps/golf-api/src/golf_api/utils/firestore_pagination.py:134-139 | the page keeps the first `min(page_size, n)` documents in stream order, and has a next cursor iff more than `page_size` were streamed |
| Pagination.PageContents | apps/golf-api/src/golf_api/utils/firestore_pagination.py:123-139 | the streamed query asks for `page_size + 1`; the page holds the first `min(page_size, n)` documents in stream order, with a next cursor iff more than `page_size` were streamed; an empty stream gives an empty page without a cursor |
| Pagination.ResumeAll | apps/golf-api/src/golf_api/utils/firestore_pagination.py:106-121 | a decoded cursor holding the item's normalised values yields exactly the item's start values |
| Pagination.CursorResumes | apps/golf-api/src/golf_api/utils/firestore_pagination.py:141-155 | the cursor built for an item, read back by the next call, starts after that item's own order-by values |
| Pagination.CutPageResumes | apps/golf-api/src/golf_api/utils/firestore_pagination.py:137-155 | when more than a page was streamed, the page's cursor resumes after its last item, the one at index `page_size - 1` |
| Pagination.NextPageResumes | apps/golf-api/src/golf_api/utils/firestore_pagination.py:99-157 | a call that streamed more than a page returns a next cursor, and the next call given it starts after the last item returned |
| Pagination.TruncatedCursorRejected | apps/golf-api/src/golf_api/utils/firestore_pagination.py:100-104 | a cursor like `invalid-cursor-string` is refused with `Invalid cursor` |
| Pagination.CursorMissingFieldRejected | apps/golf-api/src/golf_api/utils/firestore_pagination.py:108-110 | a decoded cursor lacking an order-by field is refused with `Cursor missing field`, naming the first such field |
| Pagination.LastDocumentMissingFieldRejected | apps/golf-api/src/golf_api/utils/firestore_pagination.py:149-152 | a last item lacking an order-by field is refused, naming the first such field |
| Pagination.UnserializablePayloadRejected | apps/golf-api/src/golf_api/utils/firestore_pagination.py:141-155 | when a value of the last item's payload cannot be serialised, the call fails with the `TypeError` message of the first such value |
| Pagination.PaginateNext | apps/golf-api/src/golf_api/utils/firestore_pagination.py:52-157 | an out-of-range `page_size`, then an empty `order_by`, fail before anything is fetched; a page never holds more than `page_size` items; the outcome is `Paginate` |

## Left out

- Token verification and `get_current_user` (`security/security.py`, `security/bearer_token.py`) are not part of this model. The user is an argument of `RequireScopedPermission`.
- The FastAPI dependency wrapper is not modelled. `RequireScopedPermission` is the body of the returned dependency.
- The warning logged for an invalid role name is not modelled; the name is skipped.
- `async`/`await` is not modelled; the steps run in sequence.
- Firestore is a parameter. It covers query execution, `start_after`, `limit` and `stream()`. Nothing is assumed about what a query returns, so ordering by the database is not modelled.
- `db.document(value)` is kept as a `DocumentRef` holding the cursor value. The model does not capture its path validation or the exception it raises for a value that is not a document path.
- `model.model_validate(data)` (pydantic) is not modelled. Each page item is the data dict it would be validated from, and a validation error is not modelled.
- `datetime.isoformat` and `datetime.fromisoformat` are the `IsoCodec` parameter. `ValidIso` is what the round trip relies on: the ISO form of a UTC instant contains `T`, uses no `Z`, and parses back to that instant.
- Datetimes are microsecond counts with an optional UTC offset. The datetime range limits and the `OverflowError` of `astimezone` near them are not modelled.
- JSON floats, `NaN`/`Infinity`, nested arrays and nested objects are not modelled.
  - `Cursor.Value` has no float, so a float order-by value cannot be expressed.
  - `Json.LoadsObject` refuses a hand-made cursor holding such values, where Python would accept it.
- JSON strings with lone surrogates are not modelled: Dafny characters are Unicode scalar values. `Json.LoadsObject` refuses an escaped lone surrogate, where Python would accept it.
- Cursor.EncodeCursor: Python's limit of 4300 digits when converting an integer is not modelled. `json.dumps` in `encode_cursor` raises `ValueError` on a longer integer, and `json.loads` does too; the model encodes and reads integers of any length.
- A `TypeError` message names the type as `<class 'name'>`, with the name given by `Unserializable(typeName)`. The module qualification Python prints for types outside builtins is not modelled.
