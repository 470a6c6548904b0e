/**
 * What the impl that the derive emits does once compiled: a reference
 * reading of the fixed `quote!` template and of Rust's match on `self`.
 *
 * `IntoResponseOf(tokens, value, inScope)` finds the arms inside the
 * template, tries them in order against the variant named `value`, and
 * builds the response of the first arm that matches. A pattern that is a
 * bare identifier names a variant only when that name is in scope where
 * the impl is expanded (`inScope`); otherwise Rust reads it as a fresh
 * binding, which matches every value. A `Self::Name { .. }` pattern names
 * the variant whatever is in scope.
 *
 * The lookup-table reading, `Expected`, is the reference the generated
 * code is compared with.
 */
module GeneratedCode {
  import opened Wrappers
  import opened TokenTrees
  import opened Derive

  /** `ErrorResponseBody { error }` of spaceship/src/errors/error_response.rs. */
  datatype ErrorResponseBody = ErrorResponseBody(error: string)

  /** The status and the JSON body that `into_response` returns. */
  datatype Response = Response(status: Usize, body: ErrorResponseBody)

  /** A match arm read back: its pattern and the pair its right-hand side yields. */
  datatype Arm = Arm(pattern: seq<Token>, status: Usize, message: string)

  /** Reads `<from_u16 path>(<status>).unwrap(), "<message>"`. */
  function DecodeBody(body: seq<Token>): Option<(Usize, string)> {
    if |body| == 19 && body[..13] == FromU16Path && body[14..17] == UnwrapCall && body[17] == Comma
       && body[13].Group? && body[13].delimiter == Parenthesis && |body[13].stream| == 1
       && body[13].stream[0].UsizeLit? && body[13].stream[0].value < USIZE_LIMIT
       && body[18].StrLit?
    then Some((body[13].stream[0].value, body[18].text))
    else None
  }

  /** Reads `<pattern> => ( <body> )`. */
  function DecodeArm(arm: seq<Token>): Option<Arm> {
    if |arm| >= 4 && arm[|arm| - 3] == Punct('=', Joint) && arm[|arm| - 2] == Punct('>', Alone)
       && arm[|arm| - 1].Group? && arm[|arm| - 1].delimiter == Parenthesis
    then
      match DecodeBody(arm[|arm| - 1].stream)
      case Some(pair) => Some(Arm(arm[..|arm| - 3], pair.0, pair.1))
      case None => None
    else None
  }

  /** Whether a pattern matches the value of variant `value`, by Rust's reading of identifiers. */
  predicate PatternMatches(pattern: seq<Token>, value: string, inScope: set<string>) {
    if |pattern| == 1 && pattern[0].Ident? then
      pattern[0].name in inScope ==> pattern[0].name == value
    else if |pattern| == 5 && pattern[..3] == [Ident("Self")] + PathSep && pattern[3].Ident?
            && pattern[4] == RestPattern then
      pattern[3].name == value
    else
      false
  }

  /** The first arm whose pattern matches decides the pair; `None` when no arm does. */
  function Dispatch(arms: seq<seq<Token>>, value: string, inScope: set<string>): Option<(Usize, string)> {
    if arms == [] then None
    else
      match DecodeArm(arms[0])
      case None => None
      case Some(arm) =>
        if PatternMatches(arm.pattern, value, inScope) then Some((arm.status, arm.message))
        else Dispatch(arms[1..], value, inScope)
  }

  /**
   * The tokens between the braces of `match self { .. }`, when `ts` has the
   * shape of the template: the last token holds `fn into_response`, whose
   * body binds `(status, error_message)` from the match and puts
   * `error_message` in the body's `error` field.
   */
  function DecodeImpl(ts: seq<Token>): Option<seq<Token>> {
    if ts == [] then None
    else
      var last := ts[|ts| - 1];
      var h := |FnHeader|;
      if last.Group? && last.delimiter == Brace && |last.stream| == h + 1
         && last.stream[..h] == FnHeader && last.stream[h].Group? && last.stream[h].delimiter == Brace
      then
        var st := last.stream[h].stream;
        var p := |LetMatch|;
        if |st| == p + 1 + |BodyStatements| && st[..p] == LetMatch && st[p + 1..] == BodyStatements
           && st[p].Group? && st[p].delimiter == Brace
        then Some(st[p].stream)
        else None
      else None
  }

  /** The response the compiled impl gives for the variant named `value`. */
  function IntoResponseOf(ts: seq<Token>, value: string, inScope: set<string>): Option<Response> {
    match DecodeImpl(ts)
    case None => None
    case Some(armTokens) =>
      match Dispatch(Items(armTokens), value, inScope)
      case None => None
      case Some(pair) => Some(Response(pair.0, ErrorResponseBody(pair.1)))
  }

  /** The first record for variant `value`: the lookup table the arms stand for. */
  function Lookup(records: seq<VariantData>, value: string): (r: Option<VariantData>)
    ensures r.Some? ==> r.value in records && r.value.identifier == value
    ensures r.Some? ==> exists k :: 0 <= k < |records| && records[k] == r.value
                                    && forall j :: 0 <= j < k ==> records[j].identifier != value
    ensures r.None? ==> forall i :: 0 <= i < |records| ==> records[i].identifier != value
  {
    if records == [] then None
    else if records[0].identifier == value then Some(records[0])
    else Lookup(records[1..], value)
  }

  function ResponseFor(d: VariantData): Response {
    Response(d.status, ErrorResponseBody(d.message))
  }

  /** What converting variant `value` should give: its record's status, and its message as `error`. */
  function Expected(records: seq<VariantData>, value: string): Option<Response> {
    match Lookup(records, value)
    case Some(d) => Some(ResponseFor(d))
    case None => None
  }

  // ---------------------------------------------------------------------
  // Reading the generated tokens back

  /** An arm as generated reads back as a bare-identifier pattern with the record's pair. */
  lemma ArmDecodes(d: VariantData)
    ensures DecodeArm(ArmTokens(d)) == Some(Arm([Ident(d.identifier)], d.status, d.message))
  {
    var body := ArmBody(d);
    assert body[..13] == FromU16Path;
    assert body[14..17] == UnwrapCall;
    assert ArmTokens(d)[..1] == [Ident(d.identifier)];
  }

  /** A qualified arm reads back as `Self::<identifier> { .. }` with the record's pair. */
  lemma QualifiedArmDecodes(d: VariantData)
    ensures DecodeArm(QualifiedArmTokens(d))
         == Some(Arm([Ident("Self")] + PathSep + [Ident(d.identifier), RestPattern], d.status, d.message))
  {
    var body := ArmBody(d);
    assert body[..13] == FromU16Path;
    assert body[14..17] == UnwrapCall;
    var a := QualifiedArmTokens(d);
    assert a[..|a| - 3] == [Ident("Self")] + PathSep + [Ident(d.identifier), RestPattern];
  }

  /** The template gives back exactly the arm tokens spliced into it. */
  lemma ImplDecodes(ident: string, g: SplitGenerics, arms: seq<seq<Token>>)
    ensures DecodeImpl(ImplTokensWith(ident, g, arms)) == Some(Join(arms))
  {
    var st := LetMatch + [Group(Brace, Join(arms))] + BodyStatements;
    assert st[..|LetMatch|] == LetMatch;
    assert st[|LetMatch| + 1..] == BodyStatements;
    var f := IntoResponseFn(Join(arms));
    assert f[..|FnHeader|] == FnHeader;
  }

  /** The arm tokens split at their commas give the arms back, one per record, in order. */
  lemma ItemsOfArms(arms: seq<seq<Token>>)
    requires forall i :: 0 <= i < |arms| ==> arms[i] != [] && CommaFree(arms[i])
    ensures Items(Join(arms)) == arms
  {
    if arms != [] {
      JoinEnd(arms);
      SplitJoin(arms);
    }
  }

  lemma {:induction false} BareDispatch(records: seq<VariantData>, value: string, inScope: set<string>)
    requires forall i :: 0 <= i < |records| ==> records[i].identifier in inScope
    ensures Dispatch(ArmsFor(records), value, inScope)
         == (match Lookup(records, value) case Some(d) => Some((d.status, d.message)) case None => None)
  {
    if records != [] {
      ArmDecodes(records[0]);
      assert ArmsFor(records)[1..] == ArmsFor(records[1..]);
      BareDispatch(records[1..], value, inScope);
    }
  }

  lemma {:induction false} QualifiedDispatch(records: seq<VariantData>, value: string, inScope: set<string>)
    ensures Dispatch(QualifiedArmsFor(records), value, inScope)
         == (match Lookup(records, value) case Some(d) => Some((d.status, d.message)) case None => None)
  {
    if records != [] {
      QualifiedArmDecodes(records[0]);
      var pattern := [Ident("Self")] + PathSep + [Ident(records[0].identifier), RestPattern];
      assert pattern[..3] == [Ident("Self")] + PathSep;
      assert QualifiedArmsFor(records)[1..] == QualifiedArmsFor(records[1..]);
      QualifiedDispatch(records[1..], value, inScope);
    }
  }

  lemma ArmsWellFormed(records: seq<VariantData>)
    ensures forall i :: 0 <= i < |ArmsFor(records)| ==> ArmsFor(records)[i] != [] && CommaFree(ArmsFor(records)[i])
  {
  }

  /**
   * When every variant name is in scope at the expansion site, the compiled
   * impl answers each variant with its record's status and message: it
   * agrees with the lookup table.
   */
  lemma GeneratedImplResponds(ident: string, g: SplitGenerics, records: seq<VariantData>, value: string, inScope: set<string>)
    requires forall i :: 0 <= i < |records| ==> records[i].identifier in inScope
    ensures IntoResponseOf(ImplTokens(ident, g, records), value, inScope) == Expected(records, value)
  {
    ImplDecodes(ident, g, ArmsFor(records));
    ArmsWellFormed(records);
    ItemsOfArms(ArmsFor(records));
    BareDispatch(records, value, inScope);
  }

  /**
   * The arms as written are bare identifiers: when the first variant's name
   * is not in scope, the first arm binds every value and all variants get
   * the first record's status and message.
   */
  lemma BareArmsCatchAll(ident: string, g: SplitGenerics, records: seq<VariantData>, value: string, inScope: set<string>)
    requires records != [] && records[0].identifier !in inScope
    ensures IntoResponseOf(ImplTokens(ident, g, records), value, inScope) == Some(ResponseFor(records[0]))
  {
    ImplDecodes(ident, g, ArmsFor(records));
    ArmsWellFormed(records);
    ItemsOfArms(ArmsFor(records));
    ArmDecodes(records[0]);
  }

  /** With `Self::`-qualified arms the impl agrees with the lookup table whatever is in scope. */
  lemma QualifiedImplResponds(ident: string, g: SplitGenerics, records: seq<VariantData>, value: string, inScope: set<string>)
    ensures IntoResponseOf(QualifiedImplTokens(ident, g, records), value, inScope) == Expected(records, value)
  {
    ImplDecodes(ident, g, QualifiedArmsFor(records));
    forall i | 0 <= i < |records|
      ensures QualifiedArmsFor(records)[i] != [] && CommaFree(QualifiedArmsFor(records)[i])
    {
      var a := QualifiedArmTokens(records[i]);
      assert forall k :: 0 <= k < |a| ==> !IsComma(a[k]);
    }
    ItemsOfArms(QualifiedArmsFor(records));
    QualifiedDispatch(records, value, inScope);
  }

  // ---------------------------------------------------------------------
  // From the enum declaration to the response

  predicate DistinctNames(vs: seq<Variant>) {
    forall i, j :: 0 <= i < j < |vs| ==> vs[i].ident != vs[j].ident
  }

  predicate NamesInScope(vs: seq<Variant>, inScope: set<string>) {
    forall i :: 0 <= i < |vs| ==> vs[i].ident in inScope
  }

  lemma {:induction false} LookupFinds(records: seq<VariantData>, i: nat)
    requires i < |records|
    requires forall j :: 0 <= j < i ==> records[j].identifier != records[i].identifier
    ensures Lookup(records, records[i].identifier) == Some(records[i])
  {
    if i > 0 {
      assert records[1..][i - 1] == records[i];
      LookupFinds(records[1..], i - 1);
    }
  }

  /**
   * End to end: for an enum whose variant names are in scope, converting
   * variant `i` yields the status and message resolved from that variant's
   * own attribute, defaults included. Every variant is covered.
   */
  lemma DerivedImplResponds(ast: DeriveInput, inScope: set<string>, i: nat)
    requires ast.data.Enum? && i < |ast.data.variants|
    requires DistinctNames(ast.data.variants) && NamesInScope(ast.data.variants, inScope)
    requires DeriveMacro2(Ok(ast)).Ok?
    ensures var v := ast.data.variants[i];
      ExtractAttributes(v).Ok?
      && IntoResponseOf(DeriveMacro2(Ok(ast)).value, v.ident, inScope)
         == Some(Response(ExtractAttributes(v).value.status, ErrorResponseBody(ExtractAttributes(v).value.message)))
  {
    var vs := ast.data.variants;
    ExtractAllRecords(vs);
    var records := ExtractAll(vs).value;
    assert forall k :: 0 <= k < |records| ==> records[k].identifier == vs[k].ident;
    LookupFinds(records, i);
    GeneratedImplResponds(ast.ident, ast.generics, records, vs[i].ident, inScope);
  }

  /** N variants give exactly N arms in the generated `match self`, one per variant, in order. */
  lemma ArmCountMatchesVariants(ast: DeriveInput)
    requires ast.data.Enum? && DeriveMacro2(Ok(ast)).Ok?
    ensures DecodeImpl(DeriveMacro2(Ok(ast)).value).Some?
    ensures var arms := Items(DecodeImpl(DeriveMacro2(Ok(ast)).value).value);
      |arms| == |ast.data.variants|
      && forall i :: 0 <= i < |arms| ==> arms[i] == ArmTokens(ExtractAll(ast.data.variants).value[i])
  {
    var records := ExtractAll(ast.data.variants).value;
    ExtractAllRecords(ast.data.variants);
    ImplDecodes(ast.ident, ast.generics, ArmsFor(records));
    ArmsWellFormed(records);
    ItemsOfArms(ArmsFor(records));
  }

  /** A struct or union gets an impl whose `match self` has no arm at all. */
  lemma NonEnumHasNoArms(ast: DeriveInput, value: string, inScope: set<string>)
    requires !ast.data.Enum?
    ensures DeriveMacro2(Ok(ast)).Ok?
    ensures DecodeImpl(DeriveMacro2(Ok(ast)).value) == Some([])
    ensures IntoResponseOf(DeriveMacro2(Ok(ast)).value, value, inScope).None?
  {
    ImplDecodes(ast.ident, ast.generics, []);
  }

  // ---------------------------------------------------------------------
  // The documented example

  const NameTakenMessage: string := "This name is already taken"
  const TooShortMessage: string := "This username is too short. Use at least 8 characters."

  /** `enum RegisterError` of the `ErrorResponse` documentation, both variants annotated with status 400. */
  const RegisterError: DeriveInput :=
    DeriveInput("RegisterError", SplitGenerics([], [], []),
                Enum([Variant("NameAlreadyTaken", Present(Some(400), Some(NameTakenMessage))),
                      Variant("UsernameTooShort", Present(Some(400), Some(TooShortMessage)))]))

  /** With both variant names in scope, each variant gets its own 400 response. */
  lemma RegisterErrorInScope()
    ensures DeriveMacro2(Ok(RegisterError)).Ok?
    ensures IntoResponseOf(DeriveMacro2(Ok(RegisterError)).value, "NameAlreadyTaken", {"NameAlreadyTaken", "UsernameTooShort"})
         == Some(Response(400, ErrorResponseBody(NameTakenMessage)))
    ensures IntoResponseOf(DeriveMacro2(Ok(RegisterError)).value, "UsernameTooShort", {"NameAlreadyTaken", "UsernameTooShort"})
         == Some(Response(400, ErrorResponseBody(TooShortMessage)))
  {
    var vs := RegisterError.data.variants;
    ExtractAllOk(vs);
    DerivedImplResponds(RegisterError, {"NameAlreadyTaken", "UsernameTooShort"}, 0);
    DerivedImplResponds(RegisterError, {"NameAlreadyTaken", "UsernameTooShort"}, 1);
  }

  /**
   * Without the variant names in scope (the documented handler refers to
   * `RegisterError::NameAlreadyTaken`, it does not import the variants),
   * `UsernameTooShort` is answered with the message of `NameAlreadyTaken`.
   */
  lemma RegisterErrorMisdispatch()
    ensures DeriveMacro2(Ok(RegisterError)).Ok?
    ensures IntoResponseOf(DeriveMacro2(Ok(RegisterError)).value, "UsernameTooShort", {})
         == Some(Response(400, ErrorResponseBody(NameTakenMessage)))
  {
    var vs := RegisterError.data.variants;
    ExtractAllOk(vs);
    ExtractAllRecords(vs);
    BareArmsCatchAll(RegisterError.ident, RegisterError.generics, ExtractAll(vs).value, "UsernameTooShort", {});
  }

  /** A variant without `#[err]` answers 500 with "Internal server error". */
  lemma UnannotatedVariantDefaults(name: string, inScope: set<string>)
    requires name in inScope
    ensures var ast := DeriveInput("AppError", SplitGenerics([], [], []), Enum([Variant(name, Absent)]));
      DeriveMacro2(Ok(ast)).Ok? &&
      IntoResponseOf(DeriveMacro2(Ok(ast)).value, name, inScope)
        == Some(Response(500, ErrorResponseBody("Internal server error")))
  {
    var ast := DeriveInput("AppError", SplitGenerics([], [], []), Enum([Variant(name, Absent)]));
    ExtractAllOk(ast.data.variants);
    DerivedImplResponds(ast, inScope, 0);
  }
}
