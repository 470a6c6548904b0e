# spaceship: the `ErrorResponse` derive, `Failure`, and the `%%%` record file

A Dafny model of the spaceship repository.

- **`ErrorResponse` derive.** The derive macro (spaceship-derive/src/lib.rs) runs in two stages.
  - Extraction reads each enum variant's optional `#[err(status, message)]` attribute.
    A missing field falls back to 500 or "Internal server error".
    The first rejected attribute aborts the whole run.
  - Generation renders one match arm per variant and wraps the arms in an `impl IntoResponse` for the enum.
- **`Failure`.** The runtime error wrapper of spaceship/src/errors/mod.rs.
  It holds an error and a status code, starts at status 500, and can have its status overridden.
  It answers with a plain-text response.
- **Record file.** The key-value file of spaceship/src/main.rs.
  `store` appends `<id>%%%<data>` lines to the file "database".
  `load` returns the second field of the first line whose first field is the id.

Modules:

- `Wrappers` (wrappers.dfy): `Option`, and `Result` with Rust's `Ok`/`Err`.
- `TokenTrees` (tokens.dfy): token trees and a `TokenStream` class that is appended to in place. It also holds the comma-separated repetition that `quote!` emits for `#(#variants),*`, and `SplitAtCommas`, the function that reads it back.
- `Derive` (derive.dfy): extraction, as a function and as the source's loop (`ExtractVariantsData`). Also the arm tokens, `ToTokens`, the impl template, and both entry points.
- `GeneratedCode` (generated.dfy): a reference meaning for the impl the derive emits. `IntoResponseOf` decodes the template and runs Rust's `match self` over the decoded arms. `Expected`, a lookup table built from the records, is what the result is compared with.
- `Errors` (errors.dfy): `Failure`, `new`, `From`, `.status(..)`, `failure!`, `internal_error!` and the response text.
- `Storage` (storage.dfy): a `Database` class whose field is the file's text. Its methods are `Store` and `Load`. The lines are read as Rust's `str::lines` reads them, and `split("%%%")` is modelled too. The module also proves the store/load round trip.

Every function is deterministic, so generation yields the same tokens for the same input by construction.

Two behaviours of the code worth knowing:

- A `Failure` response body is the plain text `Something went wrong: <error>`. It is not a `{ error: .. }` body like the derive's (spaceship/src/errors/mod.rs:71-79).
- The generated arms name each variant by a bare identifier, not by `Self::<name>`. See "## Findings".

## Model

| member | source | states |
|---|---|---|
| `Derive.ExtractAttributes` | spaceship-derive/src/lib.rs:5-12 | A rejected attribute is an error. The error carries the variant's name, which stands for the span at the attribute that the error points to. Otherwise each field is kept when given and set to its own default when omitted: status 500, message "Internal server error". The two fields are independent, and an absent attribute and a partial one take separate cases |
| `Derive.ExtractAll` | spaceship-derive/src/lib.rs:61-76 | Extraction as a function. On success there is one record per variant, and the only error it can give is an attribute error |
| `Derive.ExtractAllOk` | spaceship-derive/src/lib.rs:64-75 | Extraction succeeds exactly when no variant's attribute is rejected |
| `Derive.ExtractAllRecords` | spaceship-derive/src/lib.rs:65-72 | On success there is exactly one record per variant, in declaration order. Record i holds variant i's resolved status and message and its name verbatim |
| `Derive.ExtractAllFirstError` | spaceship-derive/src/lib.rs:66 | The first rejected variant's error is the result, and no partial list is returned |
| `Derive.ExtractVariantsData` | spaceship-derive/src/lib.rs:61-76 | The push loop returns exactly the extraction function's result. That is an empty list for a non-enum, the records of all variants, or the first attribute error |
| `Derive.ToTokens` | spaceship-derive/src/lib.rs:20-58 | Appends exactly the four arm tokens to the stream and leaves the earlier tokens in place |
| `Derive.ArmBody` | spaceship-derive/src/lib.rs:26-55 | The tokens inside the arm's parentheses form a pair. There are 19 of them, with exactly one top-level comma, at 17. Token 13 is a parenthesised group holding only the unsuffixed status literal, and token 18 is the message literal |
| `Derive.ArmTokens` | spaceship-derive/src/lib.rs:20-58 | An arm is 4 top-level tokens, none of them a comma. The first is the bare variant identifier and the last is the parenthesised pair |
| `TokenTrees.TokenStream.Append` | spaceship-derive/src/lib.rs:22-57 | Each `append` adds one token at the end of the stream and keeps the earlier tokens |
| `Derive.ArmsFor` | spaceship-derive/src/lib.rs:92 | One arm per record, in record order |
| `TokenTrees.Join` | spaceship-derive/src/lib.rs:92 | The repetition of no arms is empty. Otherwise it starts with the first arm, followed by a comma when there is a second |
| `TokenTrees.SplitJoin` | spaceship-derive/src/lib.rs:92 | Cutting the joined arms at their top-level commas gives back the same arms in the same order |
| `TokenTrees.JoinCommaCount` | spaceship-derive/src/lib.rs:92 | n arms are separated by exactly n-1 commas |
| `TokenTrees.JoinEnd` | spaceship-derive/src/lib.rs:92 | The joined arms end with the last arm's last token, so there is no trailing comma |
| `Derive.ImplTokensWith` | spaceship-derive/src/lib.rs:88-100 | The `quote!` template starts with `impl`, ends in a braced item body, and has 14 tokens besides the three generics parts |
| `Derive.ImplTokens` | spaceship-derive/src/lib.rs:88-100 | The impl for the bare arms. Its top-level length does not depend on the number of variants, because all arms sit inside the one braced body |
| `Derive.QualifiedImplTokens` | spaceship-derive/src/lib.rs:88-100 | The corrected generator, with the same template and qualified arms. Its top-level length is the same as the generated impl's |
| `Derive.GenericsSplicedVerbatim` | spaceship-derive/src/lib.rs:86-89 | The impl header holds `impl_generics`, `type_generics` and `where_clause` unchanged and in their places around the trait path and the enum name. The impl's length is their lengths plus 14, so nothing is dropped or added |
| `Derive.DeriveMacro2` | spaceship-derive/src/lib.rs:78-101 | Succeeds exactly when parsing and extraction succeed. Otherwise it passes on the parse error, or else the extraction error |
| `Derive.DeriveMacro` | spaceship-derive/src/lib.rs:103-106 | Callable only when the input parses and no attribute is rejected, because `unwrap` panics otherwise. It then returns exactly `err_response_derive_macro2`'s tokens |
| `GeneratedCode.Lookup` | spaceship-derive/src/lib.rs:91-93 | The reference table. It finds a record named `value`, and that record comes before every other record with that name. It finds none only when no record has that name |
| `GeneratedCode.ArmDecodes` | spaceship-derive/src/lib.rs:20-58 | Each generated arm reads back as a bare-identifier pattern with the record's status and message. This is the inverse of the arm rendering |
| `GeneratedCode.ImplDecodes` | spaceship-derive/src/lib.rs:88-100 | The template gives back exactly the arm tokens spliced into its `match self { .. }` |
| `GeneratedCode.GeneratedImplResponds` | spaceship-derive/src/lib.rs:88-100 | When the variant names are in scope, the compiled impl answers every variant exactly as the lookup table does. The status is the record's, and the body's `error` is the record's message |
| `GeneratedCode.BareArmsCatchAll` | spaceship-derive/src/lib.rs:22 | When the first variant's name is not in scope, its bare-identifier arm binds every value, and every variant gets the first record's response |
| `GeneratedCode.QualifiedImplResponds` | spaceship-derive/src/lib.rs:22 | With `Self::<name> { .. }` arms the impl agrees with the lookup table whatever names are in scope |
| `GeneratedCode.DerivedImplResponds` | spaceship-derive/src/lib.rs:61-101 | End to end, every variant of an enum with distinct, in-scope names is answered with the status and message resolved from its own attribute, defaults included |
| `GeneratedCode.ArmCountMatchesVariants` | spaceship-derive/src/lib.rs:61-100 | For an enum that derives, the generated `match self` holds exactly one arm per variant, and arm i is variant i's rendered arm |
| `GeneratedCode.NonEnumHasNoArms` | spaceship-derive/src/lib.rs:64-75 | A struct or union gets an impl whose `match self` has zero arms. A `match` with no arms on a non-empty type is rejected by Rust as non-exhaustive, so deriving on a non-enum fails to compile. `IntoResponseOf` returning `None` for every value stands for that compile error |
| `GeneratedCode.RegisterErrorInScope` | spaceship/src/errors/error_response.rs:17-23 | For the documented `RegisterError`, `NameAlreadyTaken` answers 400 with "This name is already taken", and `UsernameTooShort` answers 400 with its own message |
| `GeneratedCode.RegisterErrorMisdispatch` | spaceship/src/errors/error_response.rs:17-27 | Without the variant names in scope, `UsernameTooShort` answers with `NameAlreadyTaken`'s message |
| `GeneratedCode.UnannotatedVariantDefaults` | spaceship/src/errors/error_response.rs:34-36 | A variant without `#[err]` answers 500 with "Internal server error" |
| `Errors.New` | spaceship/src/errors/mod.rs:63-67 | Wraps the error unchanged with status 500 |
| `Errors.FromError` | spaceship/src/errors/mod.rs:81-88 | Converting any error gives the same failure as `Failure::new` of the converted error, so status 500 |
| `Errors.Status` | spaceship/src/errors/mod.rs:94-101 | Requires `Err`, because `Ok` panics. Returns `Err` with the same error and the given status |
| `Errors.StatusLastWins` | spaceship/src/errors/mod.rs:95-99 | Applying `.status` twice leaves the last status and the original error |
| `Errors.Anyhow` | spaceship/src/errors/mod.rs:26-34 | The error `anyhow!` builds. A literal without `{` or `}` displays its own text, and an error expression is kept unchanged. Other literals and format strings go through Rust's formatting, which is a parameter |
| `Errors.FailureMacro` | spaceship/src/errors/mod.rs:24-35 | Every form gives `Err` with status 500 and the error that `anyhow!` builds from its arguments. A literal without braces is the message as written, and an error expression is kept unchanged |
| `Errors.InternalErrorMacro` | spaceship/src/errors/mod.rs:46-57 | Returns the same value as `failure!` with the same arguments, so status 500 |
| `Errors.FailureWithUnauthorized` | spaceship/src/errors/mod.rs:103-108 | `failure!("User not authenticated").status(UNAUTHORIZED)` is `Err` with status 401 and that message |
| `Errors.IntoResponse` | spaceship/src/errors/mod.rs:71-79 | The response has the failure's stored status. Its body is "Something went wrong: " followed by the error text |
| `Errors.ResponseCarriesError` | spaceship/src/errors/mod.rs:71-79 | Removing the prefix from the response body gives back the error text |
| `Storage.Row` | spaceship/src/main.rs:60 | The stored line is the id, then "%%%", then the data, and nothing else |
| `Storage.Field0` | spaceship/src/main.rs:81 | `split("%%%").nth(0)` is the text before the first "%%%", or the whole line when it has none |
| `Storage.Field1` | spaceship/src/main.rs:82 | `split("%%%").nth(1)` is the text after the first "%%%" up to the next "%%%" or the end of the line, and holds no "%%%" |
| `Storage.Lines` | spaceship/src/main.rs:80 | `str::lines`: no line holds a line break, and only the empty text has no lines |
| `Storage.FindRecord` | spaceship/src/main.rs:80-85 | Returns `None` exactly when no line's first field is the id. Otherwise it returns the second field of the first line that matches, so the earliest match wins |
| `Storage.PanicOnlyOnBareId` | spaceship/src/main.rs:81-82 | The lookup can panic only on a first matching line that equals the id, because such a line has no "%%%" |
| `Storage.Database.Store` | spaceship/src/main.rs:46-67 | Takes an id of 7 alphanumeric characters. Creates the file if missing. On success it appends exactly `<id>%%%<data>` and a line break after the old text, and returns the id and the data. On a failed write it returns the error and the old text stays |
| `Storage.Database.Load` | spaceship/src/main.rs:70-89 | A missing file is an error. Otherwise the result is `Ok` of the lookup over the file's lines |
| `Storage.StorePessoa` | spaceship/src/main.rs:40-44 | Always fails with the unknown store error |
| `Storage.LinesAppend` | spaceship/src/main.rs:54-60 | Appending a line to a file whose lines are all terminated adds that line, without a final '\r', to the file's lines and leaves the earlier lines as they were |
| `Storage.RowFields` | spaceship/src/main.rs:60 | A stored line's first field is its id. Its second field is the data up to the data's first "%%%" |
| `Storage.StoreThenLoad` | spaceship/src/main.rs:60 | The round trip: loading by id returns the data. This holds when the old file text is empty or ends in a line break, the data has no "%%%", no line break and no final '\r', and no earlier line has the id |
| `Storage.StoreThenLoadTruncates` | spaceship/src/main.rs:82 | Data that contains "%%%" comes back cut before its first "%%%" |
| `Storage.StoreThenLoadDropsCR` | spaceship/src/main.rs:80 | Data ending in '\r' comes back without it, because `lines` treats "\r\n" as one line break |

## Findings

| source | as written | input that shows it | evidently intended | confidence | as-written member | corrected member |
|---|---|---|---|---|---|---|
| spaceship-derive/src/lib.rs:22 | Each arm's pattern is the bare variant name (`UsernameTooShort => ..`). Rust reads a bare name as a fresh binding, which matches every value, unless that variant name is imported where the impl expands | The documented `RegisterError`, whose handler writes `RegisterError::NameAlreadyTaken` and imports no variants. Converting `UsernameTooShort` gives "This name is already taken" | Each variant is answered with its own status and message, whatever is in scope (`Self::<name> { .. }` patterns) | not executed; medium: Rust may instead reject the expansion through the deny-by-default lint `bindings_with_variant_name`, which is a failure too | `GeneratedCode.RegisterErrorMisdispatch` | `GeneratedCode.QualifiedImplResponds` |

Where the finding shows up:

- `Derive.DeriveMacro2` keeps the arms as written, so the model stays faithful to the code.
- `GeneratedCode.GeneratedImplResponds` and `GeneratedCode.DerivedImplResponds` state the intended behaviour only under the condition that the variant names are in scope.
- `Derive.QualifiedImplTokens` is the corrected generator.
- `GeneratedCode.QualifiedImplResponds` proves that the corrected generator gives the intended behaviour without that condition.

## Left out

- The parsing done by `deluxe::extract_attributes` is not modelled: syntax, key checks, coercion of the status to `usize`, and merging of repeated attributes. It is a foreign library. A variant's attribute is given as absent, present with optional fields, or rejected with a reason.
- Stripping the `#[err]` attribute from the `&mut` AST is not modelled. The output reads only the enum's name and generics, which the stripping does not touch.
- `syn::parse2` is not modelled. Its outcome is the `parsed` parameter.
- `Generics::split_for_impl` is not modelled. Its three parts are given as opaque token sequences.
- `Literal::string` escaping is not modelled. A string literal carries the message text itself.
- The runtime behaviour of the generated code beyond the match is not modelled. That covers `StatusCode::from_u16(..).unwrap()`, axum's `IntoResponse` and `Json` serialisation. Extraction does no range check of its own: any `usize` status passes. The status is emitted as an unsuffixed literal passed to `from_u16`, so it is typed `u16`. A status from 0 to 99 or from 1000 to 65535 reaches `unwrap` and panics when the generated code runs. A status above 65535 does not fit `u16`: rustc rejects it through the deny-by-default `overflowing_literals` lint, or truncates it if that lint is silenced in the expansion. The model just carries the number.
- Variant fields are not modelled. A bare arm whose name is not in scope is a binding that matches every value, fields or not, as described under "## Findings". When a tuple or struct variant's name is in scope, rustc rejects the bare arm (E0530 for a tuple variant). The corrected `{ .. }` pattern matches the variant whatever its fields.
- `Ident::new` panics on an invalid identifier, and that panic is not modelled. It happens for a raw-identifier variant such as `r#type`: its name prints as `"r#type"`, which `Ident::new` rejects. The model treats every variant name as a plain identifier.
- Rust's `format_args!` is not modelled. A `failure!` literal with braces goes through it, so `{{x}}` displays `{x}` and `{name}` captures a variable. A literal without braces is its own message.
- The Display text of an `anyhow::Error` is taken as given. Rust's formatting for `failure!(fmt, args..)` is a function parameter. `StatusCode` is an integer from 100 to 999, with the two constants that are used.
- Some of the file I/O is not modelled: the panic of `open(..).unwrap()`, read errors other than a missing file, `println!` and `dbg!`. `rand::thread_rng` is replaced by the `id` parameter, and the outcome of `writeln!` by the `writeFails` parameter.
- Storage.Database.Store: on a failed write the file keeps its old text. A partially written line is not modelled, because its extent is not known.
- `Pessoa::new` only builds the value, so it is the `Pessoa` datatype constructor.
- The `handler` and `get_user` examples of spaceship/src/errors/mod.rs and `main` in spaceship/src/main.rs are illustrations. The only property taken from them is `Errors.FailureWithUnauthorized`.
- spaceship-cli/src/bin/ssp.rs only prints a banner and reads a file, and is not part of this model.
