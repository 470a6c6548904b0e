/**
 * The `ErrorResponse` derive macro of spaceship-derive/src/lib.rs.
 *
 * Stage 1 (extraction) walks the variants of an enum in declaration order
 * and turns each variant's optional `#[err(status = .., message = ..)]`
 * attribute into a record, filling in 500 and "Internal server error" for
 * whatever is missing; the first attribute error aborts the whole run.
 *
 * Stage 2 (generation) renders each record as one match arm and wraps the
 * comma-separated arms in an `impl IntoResponse` for the enum, with the
 * enum's own generics spliced into the header.
 *
 * What `deluxe::extract_attributes` makes of an attribute, and what
 * `syn::parse2` makes of the input tokens, are taken as given values.
 */
module Derive {
  import opened Wrappers
  import opened TokenTrees

  /** `usize` on a 64-bit target. Extraction checks nothing else about a status. */
  const USIZE_LIMIT: nat := 0x1_0000_0000_0000_0000
  type Usize = n: nat | n < USIZE_LIMIT

  /** The `#[deluxe(default = ..)]` values of `EnumVariantAttrs` (lib.rs:8-11). */
  const DEFAULT_STATUS: Usize := 500
  const DEFAULT_MESSAGE: string := "Internal server error"

  /**
   * What `deluxe::extract_attributes` reads from one variant: no `#[err]`
   * attribute at all, an attribute giving some of its two fields, or an
   * attribute it rejects (bad syntax, an unknown key, a status that is not
   * a `usize`).
   */
  datatype Annotation =
    | Absent
    | Present(status: Option<Usize>, message: Option<string>)
    | Rejected(reason: string)

  datatype Variant = Variant(ident: string, annotation: Annotation)

  /** `syn::Data`: only an enum has variants to walk. */
  datatype Data = Enum(variants: seq<Variant>) | Struct | Union

  /** The three parts of `Generics::split_for_impl`, each kept as opaque tokens. */
  datatype SplitGenerics = SplitGenerics(implGenerics: seq<Token>, typeGenerics: seq<Token>, whereClause: seq<Token>)

  /** The parts of `syn::DeriveInput` the macro reads. */
  datatype DeriveInput = DeriveInput(ident: string, generics: SplitGenerics, data: Data)

  /** `deluxe::Error`, which is `syn::Error`: from parsing the input or from an attribute. */
  datatype MacroError = ParseError(reason: string) | AttributeError(variant: string, reason: string)

  /** `EnumVariantAttrs` once defaults are filled in. */
  datatype VariantAttrs = VariantAttrs(status: Usize, message: string)

  /** `EnumVariantData`: one normalized record per variant. */
  datatype VariantData = VariantData(status: Usize, message: string, identifier: string)

  predicate GivesStatus(a: Annotation) {
    a.Present? && a.status.Some?
  }

  predicate GivesMessage(a: Annotation) {
    a.Present? && a.message.Some?
  }

  /**
   * `deluxe::extract_attributes` into `EnumVariantAttrs`. An absent attribute
   * and a partial one both end up with defaults, through different cases.
   */
  function ExtractAttributes(v: Variant): (r: Result<VariantAttrs, MacroError>)
    ensures r.Err? <==> v.annotation.Rejected?
    ensures r.Err? ==> r.error == AttributeError(v.ident, v.annotation.reason)
    ensures r.Ok? && GivesStatus(v.annotation) ==> r.value.status == v.annotation.status.value
    ensures r.Ok? && !GivesStatus(v.annotation) ==> r.value.status == DEFAULT_STATUS
    ensures r.Ok? && GivesMessage(v.annotation) ==> r.value.message == v.annotation.message.value
    ensures r.Ok? && !GivesMessage(v.annotation) ==> r.value.message == DEFAULT_MESSAGE
  {
    match v.annotation
    case Absent => Ok(VariantAttrs(DEFAULT_STATUS, DEFAULT_MESSAGE))
    case Present(status, message) => Ok(VariantAttrs(status.GetOr(DEFAULT_STATUS), message.GetOr(DEFAULT_MESSAGE)))
    case Rejected(reason) => Err(AttributeError(v.ident, reason))
  }

  /** The record pushed for a variant: its attributes and its name, as written. */
  function Record(v: Variant, attrs: VariantAttrs): VariantData {
    VariantData(attrs.status, attrs.message, v.ident)
  }

  /** Extraction over a list of variants: the `?` stops at the first rejected attribute. */
  function ExtractAll(vs: seq<Variant>): (r: Result<seq<VariantData>, MacroError>)
    ensures r.Ok? ==> |r.value| == |vs|
    ensures r.Err? ==> r.error.AttributeError?
  {
    if vs == [] then Ok([])
    else
      match ExtractAttributes(vs[0])
      case Err(e) => Err(e)
      case Ok(attrs) =>
        match ExtractAll(vs[1..])
        case Err(e) => Err(e)
        case Ok(rest) => Ok([Record(vs[0], attrs)] + rest)
  }

  /** `extract_variants_data` as a function: a struct or union has no records. */
  function ExtractVariants(data: Data): Result<seq<VariantData>, MacroError> {
    match data
    case Enum(vs) => ExtractAll(vs)
    case _ => Ok([])
  }

  /** Extraction succeeds exactly when no variant's attribute is rejected. */
  lemma {:induction false} ExtractAllOk(vs: seq<Variant>)
    ensures ExtractAll(vs).Ok? <==> forall i :: 0 <= i < |vs| ==> ExtractAttributes(vs[i]).Ok?
  {
    if vs != [] {
      ExtractAllOk(vs[1..]);
      assert forall i :: 1 <= i < |vs| ==> vs[i] == vs[1..][i - 1];
    }
  }

  /** One record per variant, in declaration order, with the variant's own name. */
  lemma {:induction false} ExtractAllRecords(vs: seq<Variant>)
    requires ExtractAll(vs).Ok?
    ensures |ExtractAll(vs).value| == |vs|
    ensures forall i :: 0 <= i < |vs| ==>
      ExtractAttributes(vs[i]).Ok? && ExtractAll(vs).value[i] == Record(vs[i], ExtractAttributes(vs[i]).value)
  {
    if vs != [] {
      ExtractAllRecords(vs[1..]);
      assert forall i :: 1 <= i < |vs| ==> vs[i] == vs[1..][i - 1];
    }
  }

  /** The first rejected variant decides the error; no partial list comes back. */
  lemma {:induction false} ExtractAllFirstError(vs: seq<Variant>, k: nat)
    requires k < |vs|
    requires forall j :: 0 <= j < k ==> ExtractAttributes(vs[j]).Ok?
    requires ExtractAttributes(vs[k]).Err?
    ensures ExtractAll(vs) == Err(ExtractAttributes(vs[k]).error)
  {
    if k > 0 {
      assert forall j :: 0 <= j < k - 1 ==> vs[1..][j] == vs[j + 1];
      ExtractAllFirstError(vs[1..], k - 1);
    }
  }

  /**
   * `extract_variants_data`: a loop over the variants that pushes one record
   * per variant and returns at the first attribute error.
   */
  method ExtractVariantsData(ast: DeriveInput) returns (r: Result<seq<VariantData>, MacroError>)
    ensures r == ExtractVariants(ast.data)
  {
    var fieldAttrs: seq<VariantData> := [];
    if ast.data.Enum? {
      var vs := ast.data.variants;
      for i := 0 to |vs|
        invariant |fieldAttrs| == i
        invariant forall j :: 0 <= j < i ==>
          ExtractAttributes(vs[j]).Ok? && fieldAttrs[j] == Record(vs[j], ExtractAttributes(vs[j]).value)
      {
        var attrs := ExtractAttributes(vs[i]);
        if attrs.Err? {
          ExtractAllFirstError(vs, i);
          r := Err(attrs.error);
          return;
        }
        fieldAttrs := fieldAttrs + [Record(vs[i], attrs.value)];
      }
      ExtractAllOk(vs);
      ExtractAllRecords(vs);
      assert fieldAttrs == ExtractAll(vs).value;
    }
    r := Ok(fieldAttrs);
  }

  // ---------------------------------------------------------------------
  // Generation

  const PathSep: seq<Token> := [Punct(':', Joint), Punct(':', Alone)]

  /** `spaceship::axum::http::StatusCode::from_u16` (lib.rs:34-46). */
  const FromU16Path: seq<Token> :=
    [Ident("spaceship")] + PathSep + [Ident("axum")] + PathSep + [Ident("http")] + PathSep
    + [Ident("StatusCode")] + PathSep + [Ident("from_u16")]

  /** `.unwrap()` (lib.rs:48-50). */
  const UnwrapCall: seq<Token> := [Punct('.', Alone), Ident("unwrap"), Group(Parenthesis, [])]

  /**
   * The tokens inside an arm's parentheses: `<from_u16 path>(<status>).unwrap(), "<message>"`,
   * a pair whose one top-level comma separates the status expression from the message.
   */
  function ArmBody(d: VariantData): (r: seq<Token>)
    ensures |r| == 19 && r[13] == Group(Parenthesis, [UsizeLit(d.status)])
    ensures r[17] == Comma && r[18] == StrLit(d.message)
    ensures forall i :: 0 <= i < 17 ==> !IsComma(r[i])
  {
    FromU16Path + [Group(Parenthesis, [UsizeLit(d.status)])] + UnwrapCall + [Comma, StrLit(d.message)]
  }

  /**
   * What `EnumVariantData::to_tokens` appends: `<identifier> => ( <ArmBody> )`,
   * four top-level tokens led by the bare variant name, none of them a comma,
   * so that the arms can be joined by commas and cut apart again.
   */
  function ArmTokens(d: VariantData): (r: seq<Token>)
    ensures |r| == 4 && CommaFree(r)
    ensures r[0] == Ident(d.identifier) && r[3] == Group(Parenthesis, ArmBody(d))
  {
    [Ident(d.identifier), Punct('=', Joint), Punct('>', Alone), Group(Parenthesis, ArmBody(d))]
  }

  /** `EnumVariantData::to_tokens`: four appends to the caller's stream. */
  method ToTokens(d: VariantData, tokens: TokenStream)
    modifies tokens
    ensures tokens.trees == old(tokens.trees) + ArmTokens(d)
    ensures |tokens.trees| == |old(tokens.trees)| + 4
  {
    tokens.Append(Ident(d.identifier));
    tokens.Append(Punct('=', Joint));
    tokens.Append(Punct('>', Alone));
    var statusCodeFunctionCallGroup := Group(Parenthesis, [UsizeLit(d.status)]);
    var stream := FromU16Path + [statusCodeFunctionCallGroup] + UnwrapCall + [Comma, StrLit(d.message)];
    tokens.Append(Group(Parenthesis, stream));
  }

  /** One arm per record, in record order. */
  function ArmsFor(records: seq<VariantData>): (arms: seq<seq<Token>>)
    ensures |arms| == |records|
    ensures forall i :: 0 <= i < |records| ==> arms[i] == ArmTokens(records[i])
  {
    if records == [] then [] else [ArmTokens(records[0])] + ArmsFor(records[1..])
  }

  /** `spaceship::axum::response::IntoResponse` */
  const IntoResponseTrait: seq<Token> :=
    [Ident("spaceship")] + PathSep + [Ident("axum")] + PathSep + [Ident("response")] + PathSep + [Ident("IntoResponse")]

  /** `fn into_response(self) -> spaceship::axum::response::Response` */
  const FnHeader: seq<Token> :=
    [Ident("fn"), Ident("into_response"), Group(Parenthesis, [Ident("self")]), Punct('-', Joint), Punct('>', Alone)]
    + [Ident("spaceship")] + PathSep + [Ident("axum")] + PathSep + [Ident("response")] + PathSep + [Ident("Response")]

  /** `let (status, error_message) = match self` */
  const LetMatch: seq<Token> :=
    [Ident("let"), Group(Parenthesis, [Ident("status"), Comma, Ident("error_message")]), Punct('=', Alone),
     Ident("match"), Ident("self")]

  /** `error: error_message.to_string()` */
  const ErrorField: seq<Token> :=
    [Ident("error"), Punct(':', Alone), Ident("error_message"), Punct('.', Alone), Ident("to_string"), Group(Parenthesis, [])]

  /**
   * `; let body = spaceship::axum::Json(spaceship::errors::ErrorResponseBody { <ErrorField> });
   *  (status, body).into_response()`
   */
  const BodyStatements: seq<Token> :=
    [Punct(';', Alone), Ident("let"), Ident("body"), Punct('=', Alone)]
    + [Ident("spaceship")] + PathSep + [Ident("axum")] + PathSep + [Ident("Json")]
    + [Group(Parenthesis,
             [Ident("spaceship")] + PathSep + [Ident("errors")] + PathSep + [Ident("ErrorResponseBody")]
             + [Group(Brace, ErrorField)])]
    + [Punct(';', Alone), Group(Parenthesis, [Ident("status"), Comma, Ident("body")]), Punct('.', Alone),
       Ident("into_response"), Group(Parenthesis, [])]

  /** The body of `into_response` around the given match arms. */
  function IntoResponseFn(armTokens: seq<Token>): seq<Token> {
    FnHeader + [Group(Brace, LetMatch + [Group(Brace, armTokens)] + BodyStatements)]
  }

  /**
   * The `quote!` of `err_response_derive_macro2` (lib.rs:88-100) with the
   * given arms spliced in by `#(#variants),*`.
   */
  function ImplTokensWith(ident: string, g: SplitGenerics, arms: seq<seq<Token>>): (r: seq<Token>)
    ensures |r| == |g.implGenerics| + |g.typeGenerics| + |g.whereClause| + 14
    ensures r[0] == Ident("impl") && r[|r| - 1].Group? && r[|r| - 1].delimiter == Brace
  {
    [Ident("impl")] + g.implGenerics + IntoResponseTrait + [Ident("for"), Ident(ident)]
    + g.typeGenerics + g.whereClause + [Group(Brace, IntoResponseFn(Join(arms)))]
  }

  /**
   * The impl for the records' bare arms. However many variants there are,
   * they all sit inside the one braced item body.
   */
  function ImplTokens(ident: string, g: SplitGenerics, records: seq<VariantData>): (r: seq<Token>)
    ensures |r| == |g.implGenerics| + |g.typeGenerics| + |g.whereClause| + 14
  {
    ImplTokensWith(ident, g, ArmsFor(records))
  }

  /**
   * The header reuses the three parts of the enum's generics verbatim and in
   * place: nothing of them is dropped and nothing is added around them.
   */
  lemma GenericsSplicedVerbatim(ident: string, g: SplitGenerics, arms: seq<seq<Token>>)
    ensures var r := ImplTokensWith(ident, g, arms);
      var ig, tg, wc := |g.implGenerics|, |g.typeGenerics|, |g.whereClause|;
      |r| == ig + tg + wc + 14
      && r[0] == Ident("impl")
      && r[1..1 + ig] == g.implGenerics
      && r[1 + ig..11 + ig] == IntoResponseTrait
      && r[11 + ig] == Ident("for") && r[12 + ig] == Ident(ident)
      && r[13 + ig..13 + ig + tg] == g.typeGenerics
      && r[13 + ig + tg..13 + ig + tg + wc] == g.whereClause
  {
    var r := ImplTokensWith(ident, g, arms);
    var ig, tg := |g.implGenerics|, |g.typeGenerics|;
    assert r == [Ident("impl")] + g.implGenerics + (IntoResponseTrait + [Ident("for"), Ident(ident)])
      + g.typeGenerics + g.whereClause + [r[|r| - 1]];
    assert r[1..1 + ig] == g.implGenerics;
    assert r[1 + ig..11 + ig] == IntoResponseTrait;
    assert r[13 + ig..13 + ig + tg] == g.typeGenerics;
  }

  /**
   * `err_response_derive_macro2`. `parsed` is what `syn::parse2` made of the
   * input tokens; its error, and any extraction error, is passed on.
   */
  function DeriveMacro2(parsed: Result<DeriveInput, MacroError>): (r: Result<seq<Token>, MacroError>)
    ensures r.Ok? <==> parsed.Ok? && ExtractVariants(parsed.value.data).Ok?
    ensures parsed.Err? ==> r == Err(parsed.error)
    ensures parsed.Ok? && ExtractVariants(parsed.value.data).Err? ==> r == Err(ExtractVariants(parsed.value.data).error)
  {
    match parsed
    case Err(e) => Err(e)
    case Ok(ast) =>
      match ExtractVariants(ast.data)
      case Err(e) => Err(e)
      case Ok(variants) => Ok(ImplTokens(ast.ident, ast.generics, variants))
  }

  /**
   * `err_response_derive_macro`: `unwrap` panics on any error, so the entry
   * point can only be reached with input that parses and whose attributes
   * are all accepted.
   */
  function DeriveMacro(parsed: Result<DeriveInput, MacroError>): (r: seq<Token>)
    requires parsed.Ok? && forall i :: 0 <= i < |VariantsOf(parsed.value.data)| ==> !VariantsOf(parsed.value.data)[i].annotation.Rejected?
    ensures DeriveMacro2(parsed) == Ok(r)
  {
    var vs := VariantsOf(parsed.value.data);
    ExtractAllOk(vs);
    DeriveMacro2(parsed).value
  }

  function VariantsOf(data: Data): seq<Variant> {
    if data.Enum? then data.variants else []
  }

  // ---------------------------------------------------------------------
  // Corrected arms: the variant path qualified by `Self::` and followed by
  // `{ .. }`, so that the pattern names the variant whatever is in scope
  // and matches it whatever fields it has.

  /** `{ .. }` */
  const RestPattern: Token := Group(Brace, [Punct('.', Joint), Punct('.', Alone)])

  /** `Self::<identifier> { .. } => ( <ArmBody> )` */
  function QualifiedArmTokens(d: VariantData): seq<Token> {
    [Ident("Self")] + PathSep + [Ident(d.identifier), RestPattern, Punct('=', Joint), Punct('>', Alone),
                                 Group(Parenthesis, ArmBody(d))]
  }

  function QualifiedArmsFor(records: seq<VariantData>): (arms: seq<seq<Token>>)
    ensures |arms| == |records|
    ensures forall i :: 0 <= i < |records| ==> arms[i] == QualifiedArmTokens(records[i])
  {
    if records == [] then [] else [QualifiedArmTokens(records[0])] + QualifiedArmsFor(records[1..])
  }

  /** The corrected generator: the same template, with qualified arms. */
  function QualifiedImplTokens(ident: string, g: SplitGenerics, records: seq<VariantData>): (r: seq<Token>)
    ensures |r| == |g.implGenerics| + |g.typeGenerics| + |g.whereClause| + 14
  {
    ImplTokensWith(ident, g, QualifiedArmsFor(records))
  }
}
