# IntegreSQL client: PostgreSQL connection-string rendering

The IntegreSQL Go client hands out template and test databases whose
connection settings arrive as a `DatabaseConfig` record: host, port, user
name, password, database name and an open-ended map of additional
connection parameters. `DatabaseConfig.ConnectionString` turns that record
into a libpq keyword/value connection string (the "Connection Strings"
form of the libpq chapter of the PostgreSQL manual, section 34.1.1 in
PostgreSQL 16). The host, user, password, database name and every
additional value are quoted with `quoteConfigParameter`; the port is
written with `%d`, and the additional parameters' keys are written
verbatim.

This project models that renderer in Dafny and proves what it promises:

- `quoteConfigParameter` writes the empty value as `''`, wraps a value
  holding a space in single quotes without escaping anything, and leaves
  every other value as it is (a tab does not trigger quoting).
- The string starts with `host`, `port`, `user`, `password`, `dbname` in
  that order. ` sslmode=disable` follows only when the caller gave no
  `sslmode`. Then every additional parameter appears once as
  ` key=<quoted value>`, in ascending key order, and nothing follows.
- The result does not depend on the map's iteration order.

Layout:

- `lex.dfy`, module `Lex`: the string order of Go's `sort.Strings`, its
  total-order lemmas, and `SortedKeys`, the ascending sequence of a set of
  keys, which is proved to be the only strictly ascending arrangement.
- `sorting.dfy`, module `Sorting`: `sort.Strings` as an in-place sort of
  an `array<string>`, proved sorted and a permutation.
- `decimal.dfy`, module `Decimal`: Go's `%d` on an `int`, negative values
  included, with a parser it round-trips through.
- `models.dfy`, module `Models`: the `DatabaseConfig` datatype, quoting,
  and a functional specification of the output. `Fields` is the list of
  keyword/value fields, `Render` is their text. `ConnectionString` is the
  imperative renderer. It appends to a string builder, collects the map's
  keys into a slice in an arbitrary order, sorts them in place and writes
  them one by one. It is proved equal to `Render`.

"Exactly once" and the sslmode "if and only if" are stated on the field
list, not on the raw text. A value may itself contain text such as
` k=v`. A caller-supplied `sslmode=disable` renders exactly like the
default. So the raw text alone cannot tell these cases apart, but the
field list can.

## Model

| member | source | states |
|---|---|---|
| `Models.QuoteConfigParameter` | pkg/models/database_config.go:18-26 | the result is never empty; it equals the value exactly when the value is non-empty and holds no space character (other whitespace such as a tab does not count); otherwise it is `'` + value + `'`, so the empty value becomes `''` and contents are never escaped; quoting neither adds nor removes a space |
| `Models.QuoteRoundTrip` | pkg/models/database_config.go:18-26 | a value with no single quote is recovered by stripping one pair of enclosing quotes from its quoted form |
| `Models.QuoteCollision` | pkg/models/database_config.go:19-24 | since nothing is escaped, the empty value and the two-character value `''` are written identically |
| `Decimal.Digits` | pkg/models/database_config.go:31-33 | the decimal digits of a natural number: non-empty, digits only, no leading zero, starting with `0` only for zero |
| `Decimal.FormatInt` | pkg/models/database_config.go:31-33 | `%d` of the port: a well-formed decimal numeral that starts with `-` exactly when the number is negative |
| `Decimal.DigitsRoundTrip` | pkg/models/database_config.go:31-33 | reading the digits back gives the number |
| `Decimal.FormatIntRoundTrip` | pkg/models/database_config.go:31-33 | reading the `%d` rendering back gives the port, negative ports included |
| `Decimal.FormatIntInjective` | pkg/models/database_config.go:31-33 | different ports render differently |
| `Lex.LessIsLexicographic` | pkg/models/database_config.go:48 | the key order is lexicographic: a proper prefix comes first, otherwise the first differing character decides |
| `Lex.LessIrreflexive` | pkg/models/database_config.go:48 | no key sorts before itself |
| `Lex.LessTransitive` | pkg/models/database_config.go:48 | the key order is transitive |
| `Lex.LessTotal` | pkg/models/database_config.go:48 | any two different keys are ordered one way or the other |
| `Lex.SortedDistinctAscending` | pkg/models/database_config.go:48 | a sorted slice without repeated keys is strictly ascending |
| `Lex.AscendingUnique` | pkg/models/database_config.go:48 | two strictly ascending sequences with the same elements are equal |
| `Lex.DistinctPermutation` | pkg/models/database_config.go:43-48 | sorting a slice of distinct keys leaves it free of repetitions |
| `Lex.SortedKeys` | pkg/models/database_config.go:43-48 | the sorted key list is strictly ascending, holds exactly the map's keys and is as long as the key set |
| `Lex.SortedKeysUnique` | pkg/models/database_config.go:43-48 | any strictly ascending sequence of exactly the keys is the sorted key list |
| `Lex.SortedCollectedKeys` | pkg/models/database_config.go:43-48 | keys collected once each and then sorted are the sorted key list, whatever order they were collected in |
| `Sorting.SortStrings` | pkg/models/database_config.go:48 | `sort.Strings`: after the call the slice is sorted and is a permutation of what it held |
| `Sorting.Insert` | pkg/models/database_config.go:48 | one insertion step: the sorted prefix `a[..i]` grows to a sorted `a[..i + 1]` that is a permutation of the old `a[..i + 1]`, and `a[i + 1..]` is unchanged |
| `Models.ParamFieldsAt` | pkg/models/database_config.go:50-52 | one field per listed key, in the listed order, holding the key verbatim and its quoted value |
| `Models.FiveFields` | pkg/models/database_config.go:31-36 | five fields named host, port, user, password and dbname render as the format string filled with their values, in that order |
| `Models.FixedText` | pkg/models/database_config.go:31-36 | the five fixed fields render as the format string `host=%s port=%d user=%s password=%s dbname=%s` filled with the quoted host, the port, and the quoted user, password and database name |
| `Models.HeadText` | pkg/models/database_config.go:31-40 | the fixed fields and the default sslmode render as the format string followed by ` sslmode=disable` exactly when the map has no `sslmode` key |
| `Models.ParamStep` | pkg/models/database_config.go:50-52 | writing one more parameter appends ` key=<quoted value>` |
| `Models.RenderLayout` | pkg/models/database_config.go:29-56 | the output is the five fixed fields, then ` sslmode=disable` exactly when the caller gave no `sslmode`, then ` key=value` for each parameter in ascending key order, and nothing else |
| `Models.FixedPrefix` | pkg/models/database_config.go:31-36 | the output always begins with host, port, user, password and dbname in that order, separated by single spaces |
| `Models.SslModeDefaultText` | pkg/models/database_config.go:38-40 | without a caller-supplied `sslmode`, ` sslmode=disable` follows the dbname field directly |
| `Models.NoAdditionalParams` | pkg/models/database_config.go:38-42 | with an empty (or nil) map the output is exactly the five fixed fields followed by ` sslmode=disable` |
| `Models.SslModeExactlyOnce` | pkg/models/database_config.go:38-52 | exactly one `sslmode` field is written, whether or not the caller gave one |
| `Models.SslModeValue` | pkg/models/database_config.go:38-52 | the `sslmode` field is the default `disable` at position 5 when the caller gave none, and otherwise carries only the caller's quoted value |
| `Models.SortedParamsValue` | pkg/models/database_config.go:50-52 | every parameter field carries the quoted value of its key |
| `Models.ParamFieldsCount` | pkg/models/database_config.go:50-52 | with distinct keys, each listed key yields exactly one field and any other key none |
| `Models.SortedParamsCount` | pkg/models/database_config.go:42-52 | each key of the map has exactly one parameter field, and any other key none |
| `Models.ParamsExactlyOnce` | pkg/models/database_config.go:42-55 | there are as many parameter fields as map entries, and each map key occurs exactly once |
| `Models.ParamsFromMap` | pkg/models/database_config.go:50-52 | each parameter field is a key of the map, written verbatim, with its quoted value |
| `Models.ParamsAscending` | pkg/models/database_config.go:43-52 | the parameter fields are in strictly ascending key order |
| `Models.Example` | pkg/models/database_config.go:29-56 | host `localhost`, port 5432, user `u`, password `p`, database `d` and parameters `{b: 2, a: 1}` render as `host=localhost port=5432 user=u password=p dbname=d sslmode=disable a=1 b=2` |
| `Models.CollectKeys` | pkg/models/database_config.go:43-46 | the slice has one entry per map key, holds exactly the map's keys, and has no repetition, whatever the iteration order |
| `Models.WriteParams` | pkg/models/database_config.go:50-52 | the builder ends up holding its previous text followed by ` key=<quoted value>` for each key of the slice, in slice order |
| `Models.ConnectionString` | pkg/models/database_config.go:29-56 | the rendered string equals the specification `Render` for every iteration order of the parameter map |

## Left out

- The template lifecycle (initialize, finalize, discard) and the test-database checkout and return protocol. That state lives in the remote IntegreSQL service. The client methods that call it are HTTP wrappers whose source is not part of this model. `client_test.go` only drives them against a live server with goroutines.
- `cmd/cli/main.go` is not modelled: it is environment lookup, a context timeout, a network call, JSON marshalling and printing.
- `client_config.go` is not modelled: it is environment-variable defaults through a helper that is not part of this model.
- The JSON struct tags of `DatabaseConfig` and its (un)marshalling belong to `encoding/json`, and are not modelled.
- Lex.Less: keys are compared as sequences of Unicode scalar values. Go's `sort.Strings` compares bytes. UTF-8 byte order equals code-point order, so the two agree on every valid UTF-8 key. A Go string holding invalid UTF-8 cannot be represented as a Dafny `string` and is not modelled.
- Decimal.FormatInt: the port is an unbounded integer. Go's `int` is 32 or 64 bits wide depending on the platform, and every value of either width renders the same in both.
- Sorting.SortStrings: an insertion sort stands in for Go's sort algorithm. Only its promise, a sorted permutation, is used. With distinct keys that result is unique.
- `strings.Builder`, `fmt.Sprintf` and `fmt.Fprintf` become appends to a local string. The key slice (`make` with capacity, then `append`) becomes an array of that capacity filled from the front. The two loops of `ConnectionString` are the methods `CollectKeys` and `WriteParams`.
- Go's map iteration order is modelled as an arbitrary choice of the next unvisited key.
- A nil map and an empty map are both the empty `map`, since Go treats them alike here.
- No claim is made that the whole output parses back into the configuration or is valid libpq syntax. Single quotes and backslashes are not escaped, and only a space triggers quoting. `Unquote` reverses the quoting only for values without a single quote.
