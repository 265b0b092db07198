# Single-use access keys: a Dafny model

This project models the core of a small web service that issues
single-use access keys. A caller who presents the configured
username/password pair gets a fresh UUID key. The key is stored as one row
of the `ad` table. Anyone holding the key can redeem it once: redeeming
deletes the row, so a second attempt reports `false`. The project also
models the `form!` macro. The service's tests use it to build
`application/x-www-form-urlencoded` request bodies.

Four files, one module each:

- `wrappers.dfy` (`Wrappers`): `Option` and `Result`, the shapes of Rust's `Option` and `Result`.
- `models.dfy` (`Models`): the `ad` table. `Snapshot` is the table's contents as a value: a map from row id to key, plus the next id the store hands out. `AdTable` is the table as an object. `Create` and `Delete` change it in place; `GetByKey` only reads it.
- `services.dfy` (`Services`): the two services. `Issue` and `Redeem` give, as functions of the table before a call, what one call returns and what it leaves in the table. `RunGenerateKey` and `RunValidateKey` perform the calls on an `AdTable` statement by statement, and their contracts tie them to those two functions. Lemmas follow a key through several calls.
- `form_macro.dfy` (`FormMacro`): the parser for the macro input, `FormBody` (the body the expansion builds) and `Form` (the macro and the code it emits, written as a loop that appends to a builder). `ReadBack` reads a body back into pairs. It is the partner `FormBody` is checked against.

Choices the model makes:

- The configured credential pair is the parameter `expected`. No operation changes it.
- Nothing decides in advance whether a database statement fails. Each query therefore takes the backend's answer as a parameter `failure: Option<StoreError>`. `Some(e)` is taken to mean that the statement failed with `e` and changed nothing (see "Left out" for a statement that takes effect and still reports an error). Every service passes that error up unchanged.
- `Uuid::new_v4` becomes a parameter `freshKey`. The requirement `!HasKey(freshKey)` is the stated assumption that a new random UUID is never already in the table. No probability is modelled.
- A key is meant to be redeemed exactly once, and every other caller should see `false`. The code sends a lookup and then a separate delete by id (src/services.rs:48-52), not one conditional delete. The model follows the code. `InterleavedValidations` replays two racing redemptions with their statements interleaved. Both lookups see the row. The first delete succeeds. The second fails with `RowNotFound`, because `delete` reads its result with `fetch_one`. So exactly one caller redeems the key, but the other gets an error instead of `false`.

## Model

| member | source | states |
|---|---|---|
| `Services.Matches` | src/services.rs:13-31 | the credentials match exactly when both the username and the password equal the configured ones; there is no partial match |
| `Services.Issue` | src/services.rs:23-36 | a mismatched pair yields `Ok(None)` and an unchanged table; a matching pair with a failing insert yields that error and an unchanged table; otherwise the result is `Some` of the fresh key and the table gains exactly the one row holding it |
| `Services.RunGenerateKey` | src/services.rs:23-36 | `GenerateKey::run` on the table: its result and the table afterwards are exactly what `Issue` gives for the table before the call |
| `Services.Redeem` | src/services.rs:47-55 | reports `true` exactly when the lookup succeeds, a row holds the key and the delete succeeds, and then removes that row and no other; reports `false` exactly when the lookup succeeds and no row holds the key; an error from either statement is passed up unchanged and leaves the table as it was |
| `Services.RunValidateKey` | src/services.rs:47-55 | `ValidateKey::run` (look up, then delete by id) on the table: its result and the table afterwards are exactly what `Redeem` gives for the table before the call |
| `Services.InterleavedValidations` | src/services.rs:48-52 | two redemptions of one key whose lookups both come before either delete: the first reports `true`, the second fails with `RowNotFound`, and the key's row is gone |
| `Services.RedeemedAtMostOnce` | src/services.rs:48-54 | after a redemption that reports `true`, a second redemption of the same key never reports `true`, whatever the backend answers; it reports `false` when its lookup succeeds |
| `Services.IssueRedeemRedeem` | src/services.rs:29-54 | issuing with the configured pair gives the fresh key; validating it then gives `true`; validating it again gives `false`; the table ends with the rows it started with |
| `Services.IssuedKeysDistinct` | src/models.rs:11-15 | issuing never disturbs a key already handed out: after a second successful issue both keys are in the table; that the two keys differ follows from the stated assumption that a fresh UUID is never already in the table |
| `Services.UnknownKeyNotRedeemed` | src/services.rs:48-50 | a key no row holds is never redeemed; if the lookup succeeds the result is `false`; the table is unchanged |
| `Models.Snapshot.Inserted` | src/models.rs:11-15 | inserting a key under the next id adds exactly one row, keeps every key unique, makes the key present and moves the id counter forward, so ids are never reused |
| `Models.Snapshot.WithoutKey` | src/services.rs:48-52 | removing a key drops exactly the row that held it, leaves every other row and the id counter as they were, makes the key absent, and changes nothing when no row held it |
| `Models.RemoveByIdIsRemoveByKey` | src/models.rs:23-27 | deleting the row found for a key by its integer id removes that key from the table, since keys are unique |
| `Models.AdTable.Create` | src/models.rs:11-15 | `Ad::create`: on success returns the new row (next id, the fresh key) and the table becomes `Inserted(key)`; on a backend error returns it and the table is unchanged |
| `Models.AdTable.GetByKey` | src/models.rs:17-21 | `Ad::get_by_key`: `None` exactly when no row holds the key; otherwise a row that is in the table and whose key is the one asked for; a backend error is returned as is |
| `Models.AdTable.Delete` | src/models.rs:23-27 | `Ad::delete`: removes the row with the given id and returns it as it was stored; if no row has that id the result is `Err(RowNotFound)` and nothing changes |
| `FormMacro.ParseKeyValue` | macros/src/lib.rs:10-19 | an entry parses exactly when the input starts with a string literal, `:` and an expression; the entry holds the literal and the rendered value, and parsing continues after those three tokens; with no literal in front the error is "expected string literal" |
| `FormMacro.ParseFormData` | macros/src/lib.rs:26-34 | a successful parse yields at least one entry; empty input is rejected |
| `FormMacro.ParseFormDataWrites` | macros/src/lib.rs:26-38 | the parser accepts an input and returns `es` exactly when the input is the entries of `es`, each a string literal, `:` and an expression rendering as the value, with a comma between each two and no token left over |
| `FormMacro.WritesLength` | macros/src/lib.rs:26-38 | an accepted input has exactly three tokens per entry plus one comma between each two entries |
| `FormMacro.LeftoverTokenRejected` | macros/src/lib.rs:28-38 | a complete entry list followed by any token other than a comma is rejected as an unexpected token |
| `FormMacro.ParseListTokens` | macros/src/lib.rs:10-34 | any non-empty list of entries, written as comma-separated `"key": value` tokens, parses back to the same entries in the same order |
| `FormMacro.TrailingCommaRejected` | macros/src/lib.rs:26-34 | an entry list followed by a trailing comma is rejected |
| `FormMacro.FormBody` | macros/src/lib.rs:44-60 | the body the emitted code builds: the `key=value` pairs in source order joined by `&`; it begins with the first pair, and it is at least as long as one `=` per entry plus one `&` between each two (`Form` is proved equal to it and `ReadBackFormBody` inverts it) |
| `FormMacro.Form` | macros/src/lib.rs:37-65 | the macro: parse, split the entries into keys and values, pop the last pair, append `key=value&` for each other pair, then the last `key=value`; the result is the parse error or `FormBody` of the entries |
| `FormMacro.FormBodySnoc` | macros/src/lib.rs:47-57 | adding one more entry appends `&`, its key, `=` and its value to the body |
| `FormMacro.FormBodyEnds` | macros/src/lib.rs:44-60 | the body begins with the first `key=value` and ends with the last, so there is no leading or trailing `&` |
| `FormMacro.SingleEntryBody` | macros/src/lib.rs:55-57 | a single entry yields exactly `key=value` |
| `FormMacro.ReadBackFormBody` | macros/src/lib.rs:47-57 | when no key holds `&` or `=` and no value holds `&`, cutting the body at `&` and then at the first `=` gives back the entries: same number, same order, keys aligned with their values |
| `FormMacro.RawValuesNotEncoded` | macros/src/lib.rs:50-57 | values go in raw: the single entry `a` = `1&b=2` yields the same body as the two entries `a=1` and `b=2`, and that body does not read back as the single entry |
| `FormMacro.AdminLoginBody` | tests/test_api.rs:96-99 | the entries `"username": "admin"` and `"password": "admin"` expand to `username=admin&password=admin` |

## Left out

- Concurrency: calls run one at a time. `InterleavedValidations` replays one interleaving of two redemptions. The model does not range over every schedule.
- The SQL files (`sql/ad/*.sql`) are not part of this model. Three things are assumed about them: the insert returns the row it creates, the lookup selects by key, and the delete selects by id and returns the deleted row. Keys are kept unique by the assumption on `freshKey`, not by a database constraint. A UUID collision is not modelled, nor what the insert would do then (a failed insert if the schema has a unique constraint on `key`, a duplicate key otherwise).
- `Models.Snapshot.Inserted`: ids are unbounded integers taken from a counter. The 32-bit width of `id` and the exhaustion of the id sequence are not modelled. A failed insert does not advance the counter.
- `Services.Redeem`, `Models.AdTable.Delete`, `Models.AdTable.Create`: a statement that takes effect but still reports an error (say, the connection drops before the reply arrives) is not modelled; `failure` is assumed to mean that nothing changed. For `ValidateKey::run` that case returns `Err` with the key already consumed: the model says a retry then succeeds, where the real retry reports `false`.
- `Models.AdTable.constructor` starts the id counter at 1. That is the usual start of a database sequence; the schema is not part of this model.
- `Uuid::new_v4` and its randomness: the key is a parameter, and any value not already in the table may be chosen.
- The HTTP handlers and routing (`src/api.rs`, `src/api/*.rs`): they extract the request, call a service and map `Err` to status 500. The HTML templates are left out too.
- Configuration loading and startup (`src/env_vars.rs`, `src/main.rs`): the configured pair is the parameter `expected`.
- `src/errors.rs`: the boxed error type becomes `StoreError`. It keeps `RowNotFound` and makes every other error an opaque `Database(code)`.
- The macro's token plumbing (`syn`, `quote`, `string_builder`) is left out. A value expression is one `Expr` or `Str` token, standing for the string its `to_string()` gives at run time. Multi-token expressions and the exact text of `syn`'s error messages are not modelled.
- `ReadBack` only cuts the body at `&` and `=`. Unlike a full `application/x-www-form-urlencoded` parser, it does no percent-decoding and no `+`-to-space replacement. The body never has either applied.
