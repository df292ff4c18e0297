// The canonical representations of net definitions and markings, and their round trips.

module NetCodec {
  import opened Wrappers
  import opened Json
  import Decimals

  // ---------- the values a net is made of ----------

  datatype ValueKind = NONE | BOOLEAN | INTEGER | REAL | STRING | STRING_SEQUENCE

  // A real is represented by the hexadecimal text that denotes it exactly.
  datatype Value =
    | NoneValue
    | BooleanValue(boolean: bool)
    | IntegerValue(integer: int)
    | RealValue(hex: string)
    | StringValue(text: string)
    | SequenceValue(texts: seq<string>)

  datatype Expression = Literal(literal: Value) | Variable(variable: string)

  datatype GuardOperator =
    TRUE | FALSE | ALL | ANY | NOT | EQUAL | NOT_EQUAL
    | LESS_THAN | LESS_THAN_OR_EQUAL | GREATER_THAN | GREATER_THAN_OR_EQUAL

  datatype Guard = Guard(
    operator: GuardOperator, operands: seq<Guard>, left: Option<Expression>, right: Option<Expression>)

  datatype Pattern = TokenPattern(variable: string, colors: seq<string>) | InhibitorPattern(colors: seq<string>)

  datatype InputMode = CONSUME | READ | INHIBIT

  datatype Template = Template(color: string, value: Expression, tokenIdentity: Option<Expression>)

  datatype Inscription = Input(mode: InputMode, patterns: seq<Pattern>) | Output(templates: seq<Template>)

  datatype Arc = Arc(identity: string, place: string, transition: string, inscription: Inscription)

  datatype Color = Color(identity: string, kinds: seq<ValueKind>)

  datatype Place = Place(identity: string, colors: seq<string>)

  datatype Transition = Transition(identity: string, inputs: seq<string>, externals: seq<string>, guard: Guard)

  datatype SelectionPolicy = DETERMINISTIC_ONLY | DIRECTED_ALLOWED

  datatype Definition = Definition(
    identity: string, policy: SelectionPolicy, colors: seq<Color>, places: seq<Place>,
    transitions: seq<Transition>, arcs: seq<Arc>, priority: seq<string>)

  const MAX_DEPTH: nat := 64

  // ---------- enumerations ----------

  function KindText(kind: ValueKind): string {
    match kind
    case NONE => "none"
    case BOOLEAN => "boolean"
    case INTEGER => "integer"
    case REAL => "real"
    case STRING => "string"
    case STRING_SEQUENCE => "string_sequence"
  }

  function DecodeKind(tree: Tree): Result<ValueKind> {
    var text :- DecodeText(tree);
    if text == "none" then Ok(NONE) else if text == "boolean" then Ok(BOOLEAN)
    else if text == "integer" then Ok(INTEGER) else if text == "real" then Ok(REAL)
    else if text == "string" then Ok(STRING) else if text == "string_sequence" then Ok(STRING_SEQUENCE)
    else Raised
  }

  function OperatorText(operator: GuardOperator): string {
    match operator
    case TRUE => "true"
    case FALSE => "false"
    case ALL => "all"
    case ANY => "any"
    case NOT => "not"
    case EQUAL => "equal"
    case NOT_EQUAL => "not_equal"
    case LESS_THAN => "less_than"
    case LESS_THAN_OR_EQUAL => "less_than_or_equal"
    case GREATER_THAN => "greater_than"
    case GREATER_THAN_OR_EQUAL => "greater_than_or_equal"
  }

  function DecodeOperator(tree: Tree): Result<GuardOperator> {
    var text :- DecodeText(tree);
    if text == "true" then Ok(TRUE) else if text == "false" then Ok(FALSE)
    else if text == "all" then Ok(ALL) else if text == "any" then Ok(ANY)
    else if text == "not" then Ok(NOT) else if text == "equal" then Ok(EQUAL)
    else if text == "not_equal" then Ok(NOT_EQUAL) else if text == "less_than" then Ok(LESS_THAN)
    else if text == "less_than_or_equal" then Ok(LESS_THAN_OR_EQUAL)
    else if text == "greater_than" then Ok(GREATER_THAN)
    else if text == "greater_than_or_equal" then Ok(GREATER_THAN_OR_EQUAL)
    else Raised
  }

  function ModeText(mode: InputMode): string {
    match mode
    case CONSUME => "consume"
    case READ => "read"
    case INHIBIT => "inhibit"
  }

  function DecodeMode(tree: Tree): Result<InputMode> {
    var text :- DecodeText(tree);
    if text == "consume" then Ok(CONSUME) else if text == "read" then Ok(READ)
    else if text == "inhibit" then Ok(INHIBIT) else Raised
  }

  function PolicyText(policy: SelectionPolicy): string {
    match policy
    case DETERMINISTIC_ONLY => "deterministic_only"
    case DIRECTED_ALLOWED => "directed_allowed"
  }

  function DecodePolicy(tree: Tree): Result<SelectionPolicy> {
    var text :- DecodeText(tree);
    if text == "deterministic_only" then Ok(DETERMINISTIC_ONLY)
    else if text == "directed_allowed" then Ok(DIRECTED_ALLOWED) else Raised
  }

  lemma KindAgrees(kind: ValueKind)
    ensures DecodeKind(Text(KindText(kind))) == Ok(kind)
  {
    ShortTextIsGood(KindText(kind));
  }

  lemma OperatorAgrees(operator: GuardOperator)
    ensures DecodeOperator(Text(OperatorText(operator))) == Ok(operator)
  {
    ShortTextIsGood(OperatorText(operator));
  }

  lemma ModeAgrees(mode: InputMode)
    ensures DecodeMode(Text(ModeText(mode))) == Ok(mode)
  {
    ShortTextIsGood(ModeText(mode));
  }

  lemma PolicyAgrees(policy: SelectionPolicy)
    ensures DecodePolicy(Text(PolicyText(policy))) == Ok(policy)
  {
    ShortTextIsGood(PolicyText(policy));
  }

  // ---------- values ----------

  function KindOf(value: Value): ValueKind {
    match value
    case NoneValue => NONE
    case BooleanValue(_) => BOOLEAN
    case IntegerValue(_) => INTEGER
    case RealValue(_) => REAL
    case StringValue(_) => STRING
    case SequenceValue(_) => STRING_SEQUENCE
  }

  // The hexadecimal text of a real is short; the text of an integer and the length of a sequence
  // are not checked here.
  function Represented(value: Value): Result<Tree> {
    match value
    case NoneValue => Ok(Null)
    case BooleanValue(boolean) => Ok(Boolean(boolean))
    case IntegerValue(integer) => Ok(Text(Decimals.IntegerText(integer)))
    case RealValue(hex) => EncodeText(hex)
    case StringValue(text) => EncodeText(text)
    case SequenceValue(texts) => EncodeArray(EncodeText, texts)
  }

  // `value_state`
  function EncodeValue(value: Value): Result<Tree> {
    var represented :- Represented(value);
    Ok(Object(map[KIND := Text(KindText(KindOf(value))), VALUE := represented]))
  }

  function DecodeAs(kind: ValueKind, represented: Tree): Result<Value> {
    match kind
    case NONE => if represented.Null? then Ok(NoneValue) else Raised
    case BOOLEAN => if represented.Boolean? then Ok(BooleanValue(represented.value)) else Raised
    case INTEGER =>
      var text :- DecodeText(represented);
      var integer :- DecodeInteger(text);
      Ok(IntegerValue(integer))
    case REAL =>
      var hex :- DecodeText(represented);
      Ok(RealValue(hex))
    case STRING =>
      var text :- DecodeText(represented);
      Ok(StringValue(text))
    case STRING_SEQUENCE =>
      var texts :- DecodeArray(DecodeText, represented);
      Ok(SequenceValue(texts))
  }

  // `value_from_state`
  function DecodeValue(tree: Tree): Result<Value> {
    var state :- Closed(tree, {KIND, VALUE});
    var kind :- DecodeKind(state[KIND]);
    DecodeAs(kind, state[VALUE])
  }

  // What the encoder leaves unchecked and the decoder does not.
  predicate GoodValue(value: Value) {
    match value
    case IntegerValue(integer) => |Decimals.IntegerText(integer)| <= MAX_TEXT_BYTES
    case SequenceValue(texts) => |texts| <= MAX_ITEMS
    case _ => true
  }

  lemma RepresentedAgrees(value: Value)
    ensures Agrees(Represented(value), t => DecodeAs(KindOf(value), t), value, GoodValue(value))
  {
    match value
    case IntegerValue(integer) =>
      IntegerTextIsAscii(integer);
      IntegerRoundTrip(integer);
    case SequenceValue(texts) => TextsAgree(texts);
    case _ =>
  }

  lemma ValueAgrees(value: Value)
    ensures Agrees(EncodeValue(value), DecodeValue, value, GoodValue(value))
  {
    KindAgrees(KindOf(value));
    RepresentedAgrees(value);
    if Represented(value).Ok? {
      var state := map[KIND := Text(KindText(KindOf(value))), VALUE := Represented(value).value];
      assert state.Keys == {KIND, VALUE};
      assert DecodeValue(Object(state)) == DecodeAs(KindOf(value), state[VALUE]);
    }
  }

  // ---------- expressions and guards ----------

  function EncodeExpression(expression: Expression): Result<Tree> {
    match expression
    case Literal(literal) =>
      var state :- EncodeValue(literal);
      Ok(Object(map[KIND := Text("literal"), LITERAL := state]))
    case Variable(variable) =>
      var identity :- EncodeText(variable);
      Ok(Object(map[KIND := Text("variable"), VARIABLE_IDENTITY := identity]))
  }

  function KindField(tree: Tree): Result<string> {
    if tree.Object? && KIND in tree.fields then DecodeText(tree.fields[KIND]) else Raised
  }

  function DecodeExpression(tree: Tree): Result<Expression> {
    var kind :- KindField(tree);
    if kind == "literal" then
      var state :- Closed(tree, {KIND, LITERAL});
      var literal :- DecodeValue(state[LITERAL]);
      Ok(Literal(literal))
    else if kind == "variable" then
      var state :- Closed(tree, {KIND, VARIABLE_IDENTITY});
      var variable :- DecodeText(state[VARIABLE_IDENTITY]);
      Ok(Variable(variable))
    else Raised
  }

  predicate GoodExpression(expression: Expression) {
    expression.Literal? ==> GoodValue(expression.literal)
  }

  lemma ExpressionAgrees(expression: Expression)
    ensures Agrees(EncodeExpression(expression), DecodeExpression, expression, GoodExpression(expression))
    ensures EncodeExpression(expression).Ok? ==> EncodeExpression(expression).value.Object?
  {
    ShortTextIsGood("literal");
    ShortTextIsGood("variable");
    if expression.Literal? { ValueAgrees(expression.literal); }
  }

  function EncodeOptional(expression: Option<Expression>): Result<Tree> {
    if expression.None? then Ok(Null) else EncodeExpression(expression.value)
  }

  function DecodeOptional(tree: Tree): Result<Option<Expression>> {
    if tree.Null? then Ok(None)
    else
      var expression :- DecodeExpression(tree);
      Ok(Some(expression))
  }

  predicate GoodOptional(expression: Option<Expression>) {
    expression.Some? ==> GoodExpression(expression.value)
  }

  lemma OptionalAgrees(expression: Option<Expression>)
    ensures Agrees(EncodeOptional(expression), DecodeOptional, expression, GoodOptional(expression))
  {
    if expression.Some? { ExpressionAgrees(expression.value); }
  }

  function EncodeGuard(guard: Guard, depth: nat): Result<Tree>
    decreases MAX_DEPTH + 1 - depth
  {
    if depth > MAX_DEPTH || |guard.operands| > MAX_ITEMS then Raised
    else
      var operands :- EncodeArray(operand => EncodeGuard(operand, depth + 1), guard.operands);
      var left :- EncodeOptional(guard.left);
      var right :- EncodeOptional(guard.right);
      Ok(Object(map[OPERATOR := Text(OperatorText(guard.operator)), OPERANDS := operands,
                    LEFT := left, RIGHT := right]))
  }

  function DecodeGuard(tree: Tree, depth: nat): Result<Guard>
    decreases MAX_DEPTH + 1 - depth
  {
    if depth > MAX_DEPTH then Raised
    else
      var state :- Closed(tree, {OPERATOR, OPERANDS, LEFT, RIGHT});
      var operands :- DecodeArray(operand => DecodeGuard(operand, depth + 1), state[OPERANDS]);
      var operator :- DecodeOperator(state[OPERATOR]);
      var left :- DecodeOptional(state[LEFT]);
      var right :- DecodeOptional(state[RIGHT]);
      Ok(Guard(operator, operands, left, right))
  }

  predicate GoodGuard(guard: Guard) {
    && (forall i | 0 <= i < |guard.operands| :: GoodGuard(guard.operands[i]))
    && GoodOptional(guard.left) && GoodOptional(guard.right)
  }

  lemma {:induction false} GuardAgrees(guard: Guard, depth: nat)
    ensures Agrees(EncodeGuard(guard, depth), t => DecodeGuard(t, depth), guard, GoodGuard(guard))
    decreases guard
  {
    var encode := operand => EncodeGuard(operand, depth + 1);
    var decode := operand => DecodeGuard(operand, depth + 1);
    forall i | 0 <= i < |guard.operands|
      ensures Agrees(encode(guard.operands[i]), decode, guard.operands[i], GoodGuard(guard.operands[i]))
    {
      GuardAgrees(guard.operands[i], depth + 1);
    }
    ArrayAgrees(encode, decode, GoodGuard, guard.operands);
    OptionalAgrees(guard.left);
    OptionalAgrees(guard.right);
    OperatorAgrees(guard.operator);
  }

  function Depth(guard: Guard): nat {
    if guard.operands == [] then 0 else 1 + DeepestOf(guard.operands)
  }

  function DeepestOf(guards: seq<Guard>): nat
    requires guards != []
  {
    var n := |guards| - 1;
    var last := Depth(guards[n]);
    if n == 0 then last
    else
      var before := DeepestOf(guards[..n]);
      if before > last then before else last
  }

  lemma {:induction false} DeepestIsOneOf(guards: seq<Guard>) returns (i: nat)
    requires guards != []
    ensures i < |guards| && DeepestOf(guards) == Depth(guards[i])
    decreases |guards|
  {
    var n := |guards| - 1;
    i := n;
    if n > 0 {
      var before := DeepestIsOneOf(guards[..n]);
      if DeepestOf(guards[..n]) > Depth(guards[n]) { i := before; }
    }
  }

  // A guard nested deeper than the bound is never encoded.
  lemma {:induction false} EncodedGuardsAreShallow(guard: Guard, depth: nat)
    requires EncodeGuard(guard, depth).Ok?
    ensures depth + Depth(guard) <= MAX_DEPTH
    decreases guard
  {
    if guard.operands != [] {
      var i := DeepestIsOneOf(guard.operands);
      MapAllShape(operand => EncodeGuard(operand, depth + 1), guard.operands);
      EncodedGuardsAreShallow(guard.operands[i], depth + 1);
    }
  }

  // ---------- arcs ----------

  function EncodePattern(pattern: Pattern): Result<Tree> {
    match pattern
    case TokenPattern(variable, colors) =>
      var identity :- EncodeText(variable);
      var allowed :- EncodeArray(EncodeText, colors);
      Ok(Object(map[KIND := Text("token"), VARIABLE_IDENTITY := identity, ALLOWED_COLOR_IDENTITIES := allowed]))
    case InhibitorPattern(colors) =>
      var allowed :- EncodeArray(EncodeText, colors);
      Ok(Object(map[KIND := Text("inhibitor"), ALLOWED_COLOR_IDENTITIES := allowed]))
  }

  function DecodePattern(tree: Tree): Result<Pattern> {
    var kind :- KindField(tree);
    if kind == "token" then
      var state :- Closed(tree, {KIND, VARIABLE_IDENTITY, ALLOWED_COLOR_IDENTITIES});
      var colors :- DecodeArray(DecodeText, state[ALLOWED_COLOR_IDENTITIES]);
      var variable :- DecodeText(state[VARIABLE_IDENTITY]);
      Ok(TokenPattern(variable, colors))
    else if kind == "inhibitor" then
      var state :- Closed(tree, {KIND, ALLOWED_COLOR_IDENTITIES});
      var colors :- DecodeArray(DecodeText, state[ALLOWED_COLOR_IDENTITIES]);
      Ok(InhibitorPattern(colors))
    else Raised
  }

  predicate GoodPattern(pattern: Pattern) {
    |pattern.colors| <= MAX_ITEMS
  }

  lemma PatternAgrees(pattern: Pattern)
    ensures Agrees(EncodePattern(pattern), DecodePattern, pattern, GoodPattern(pattern))
  {
    ShortTextIsGood("token");
    ShortTextIsGood("inhibitor");
    TextsAgree(pattern.colors);
  }

  function EncodeTemplate(template: Template): Result<Tree> {
    var color :- EncodeText(template.color);
    var value :- EncodeExpression(template.value);
    var identity :- EncodeOptional(template.tokenIdentity);
    Ok(Object(map[COLOR_IDENTITY := color, VALUE_EXPRESSION := value, TOKEN_IDENTITY_EXPRESSION := identity]))
  }

  function DecodeTemplate(tree: Tree): Result<Template> {
    var state :- Closed(tree, {COLOR_IDENTITY, VALUE_EXPRESSION, TOKEN_IDENTITY_EXPRESSION});
    var color :- DecodeText(state[COLOR_IDENTITY]);
    var value :- DecodeExpression(state[VALUE_EXPRESSION]);
    var identity :- DecodeOptional(state[TOKEN_IDENTITY_EXPRESSION]);
    Ok(Template(color, value, identity))
  }

  predicate GoodTemplate(template: Template) {
    GoodExpression(template.value) && GoodOptional(template.tokenIdentity)
  }

  lemma TemplateAgrees(template: Template)
    ensures Agrees(EncodeTemplate(template), DecodeTemplate, template, GoodTemplate(template))
  {
    ExpressionAgrees(template.value);
    OptionalAgrees(template.tokenIdentity);
  }

  // The counts of patterns and templates are checked on both sides.
  function EncodeInput(mode: InputMode, patterns: seq<Pattern>): Result<Tree> {
    if |patterns| > MAX_ITEMS then Raised
    else
      var states :- EncodeArray(EncodePattern, patterns);
      Ok(Object(map[MODE := Text(ModeText(mode)), PATTERNS := states]))
  }

  function DecodeInput(tree: Tree): Result<Inscription> {
    var state :- Closed(tree, {MODE, PATTERNS});
    var patterns :- DecodeArray(DecodePattern, state[PATTERNS]);
    var mode :- DecodeMode(state[MODE]);
    Ok(Input(mode, patterns))
  }

  function EncodeOutput(templates: seq<Template>): Result<Tree> {
    if |templates| > MAX_ITEMS then Raised
    else
      var states :- EncodeArray(EncodeTemplate, templates);
      Ok(Object(map[TEMPLATES := states]))
  }

  function DecodeOutput(tree: Tree): Result<Inscription> {
    var state :- Closed(tree, {TEMPLATES});
    var templates :- DecodeArray(DecodeTemplate, state[TEMPLATES]);
    Ok(Output(templates))
  }

  function EncodeInscription(inscription: Inscription): Result<Tree> {
    match inscription
    case Input(mode, patterns) =>
      var value :- EncodeInput(mode, patterns);
      Ok(Object(map[KIND := Text("input"), VALUE := value]))
    case Output(templates) =>
      var value :- EncodeOutput(templates);
      Ok(Object(map[KIND := Text("output"), VALUE := value]))
  }

  function DecodeInscription(tree: Tree): Result<Inscription> {
    var state :- Closed(tree, {KIND, VALUE});
    var kind :- DecodeText(state[KIND]);
    if kind == "input" then DecodeInput(state[VALUE])
    else if kind == "output" then DecodeOutput(state[VALUE]) else Raised
  }

  predicate GoodInscription(inscription: Inscription) {
    match inscription
    case Input(_, patterns) => forall i | 0 <= i < |patterns| :: GoodPattern(patterns[i])
    case Output(templates) => forall i | 0 <= i < |templates| :: GoodTemplate(templates[i])
  }

  lemma InputAgrees(mode: InputMode, patterns: seq<Pattern>)
    ensures Agrees(EncodeInput(mode, patterns), DecodeInput, Input(mode, patterns),
                   GoodInscription(Input(mode, patterns)))
  {
    ModeAgrees(mode);
    forall i | 0 <= i < |patterns|
      ensures Agrees(EncodePattern(patterns[i]), DecodePattern, patterns[i], GoodPattern(patterns[i]))
    {
      PatternAgrees(patterns[i]);
    }
    ArrayAgrees(EncodePattern, DecodePattern, GoodPattern, patterns);
  }

  lemma OutputAgrees(templates: seq<Template>)
    ensures Agrees(EncodeOutput(templates), DecodeOutput, Output(templates), GoodInscription(Output(templates)))
  {
    forall i | 0 <= i < |templates|
      ensures Agrees(EncodeTemplate(templates[i]), DecodeTemplate, templates[i], GoodTemplate(templates[i]))
    {
      TemplateAgrees(templates[i]);
    }
    ArrayAgrees(EncodeTemplate, DecodeTemplate, GoodTemplate, templates);
  }

  lemma InscriptionAgrees(inscription: Inscription)
    ensures Agrees(EncodeInscription(inscription), DecodeInscription, inscription, GoodInscription(inscription))
  {
    ShortTextIsGood("input");
    ShortTextIsGood("output");
    match inscription
    case Input(mode, patterns) => InputAgrees(mode, patterns);
    case Output(templates) => OutputAgrees(templates);
  }

  function EncodeArc(arc: Arc): Result<Tree> {
    var identity :- EncodeText(arc.identity);
    var place :- EncodeText(arc.place);
    var transition :- EncodeText(arc.transition);
    var inscription :- EncodeInscription(arc.inscription);
    Ok(Object(map[IDENTITY := identity, PLACE_IDENTITY := place, TRANSITION_IDENTITY := transition,
                  INSCRIPTION := inscription]))
  }

  function DecodeArc(tree: Tree): Result<Arc> {
    var state :- Closed(tree, {IDENTITY, PLACE_IDENTITY, TRANSITION_IDENTITY, INSCRIPTION});
    var identity :- DecodeText(state[IDENTITY]);
    var place :- DecodeText(state[PLACE_IDENTITY]);
    var transition :- DecodeText(state[TRANSITION_IDENTITY]);
    var inscription :- DecodeInscription(state[INSCRIPTION]);
    Ok(Arc(identity, place, transition, inscription))
  }

  predicate GoodArc(arc: Arc) {
    GoodInscription(arc.inscription)
  }

  lemma ArcAgrees(arc: Arc)
    ensures Agrees(EncodeArc(arc), DecodeArc, arc, GoodArc(arc))
  {
    InscriptionAgrees(arc.inscription);
    if EncodeArc(arc).Ok? {
      assert EncodeArc(arc).value.fields.Keys == {IDENTITY, PLACE_IDENTITY, TRANSITION_IDENTITY, INSCRIPTION};
    }
  }

  // ---------- definitions ----------

  function EncodeColor(color: Color): Result<Tree> {
    var identity :- EncodeText(color.identity);
    var kinds :- EncodeArray(kind => Ok(Text(KindText(kind))), color.kinds);
    Ok(Object(map[IDENTITY := identity, ALLOWED_VALUE_KINDS := kinds]))
  }

  function DecodeColor(tree: Tree): Result<Color> {
    var state :- Closed(tree, {IDENTITY, ALLOWED_VALUE_KINDS});
    var kinds :- DecodeArray(DecodeKind, state[ALLOWED_VALUE_KINDS]);
    var identity :- DecodeText(state[IDENTITY]);
    Ok(Color(identity, kinds))
  }

  predicate GoodColor(color: Color) { |color.kinds| <= MAX_ITEMS }

  lemma ColorAgrees(color: Color)
    ensures Agrees(EncodeColor(color), DecodeColor, color, GoodColor(color))
  {
    var encode := (kind: ValueKind) => Ok(Text(KindText(kind)));
    forall i | 0 <= i < |color.kinds| ensures Agrees(encode(color.kinds[i]), DecodeKind, color.kinds[i], true) {
      KindAgrees(color.kinds[i]);
    }
    ArrayAgrees(encode, DecodeKind, _ => true, color.kinds);
  }

  function EncodePlace(place: Place): Result<Tree> {
    var identity :- EncodeText(place.identity);
    var colors :- EncodeArray(EncodeText, place.colors);
    Ok(Object(map[IDENTITY := identity, ALLOWED_COLOR_IDENTITIES := colors]))
  }

  function DecodePlace(tree: Tree): Result<Place> {
    var state :- Closed(tree, {IDENTITY, ALLOWED_COLOR_IDENTITIES});
    var colors :- DecodeArray(DecodeText, state[ALLOWED_COLOR_IDENTITIES]);
    var identity :- DecodeText(state[IDENTITY]);
    Ok(Place(identity, colors))
  }

  predicate GoodPlace(place: Place) { |place.colors| <= MAX_ITEMS }

  lemma PlaceAgrees(place: Place)
    ensures Agrees(EncodePlace(place), DecodePlace, place, GoodPlace(place))
  {
    TextsAgree(place.colors);
  }

  function EncodeTransition(transition: Transition): Result<Tree> {
    var identity :- EncodeText(transition.identity);
    var inputs :- EncodeArray(EncodeText, transition.inputs);
    var externals :- EncodeArray(EncodeText, transition.externals);
    var guard :- EncodeGuard(transition.guard, 0);
    Ok(Object(map[IDENTITY := identity, INPUT_VARIABLE_IDENTITIES := inputs,
                  EXTERNAL_OUTPUT_VARIABLE_IDENTITIES := externals, GUARD := guard]))
  }

  function DecodeTransition(tree: Tree): Result<Transition> {
    var state :- Closed(tree, {IDENTITY, INPUT_VARIABLE_IDENTITIES, EXTERNAL_OUTPUT_VARIABLE_IDENTITIES, GUARD});
    var inputs :- DecodeArray(DecodeText, state[INPUT_VARIABLE_IDENTITIES]);
    var externals :- DecodeArray(DecodeText, state[EXTERNAL_OUTPUT_VARIABLE_IDENTITIES]);
    var identity :- DecodeText(state[IDENTITY]);
    var guard :- DecodeGuard(state[GUARD], 0);
    Ok(Transition(identity, inputs, externals, guard))
  }

  predicate GoodTransition(transition: Transition) {
    && |transition.inputs| <= MAX_ITEMS && |transition.externals| <= MAX_ITEMS
    && GoodGuard(transition.guard)
  }

  lemma TransitionAgrees(transition: Transition)
    ensures Agrees(EncodeTransition(transition), DecodeTransition, transition, GoodTransition(transition))
  {
    TextsAgree(transition.inputs);
    TextsAgree(transition.externals);
    GuardAgrees(transition.guard, 0);
  }

  // The seven fields of a represented definition.
  datatype Fields = Fields(
    identity: Tree, policy: Tree, colors: Tree, places: Tree, transitions: Tree, arcs: Tree, priority: Tree)

  function ObjectOf(f: Fields): Tree {
    Object(map[IDENTITY := f.identity, SELECTION_POLICY := f.policy, COLORS := f.colors, PLACES := f.places,
               TRANSITIONS := f.transitions, ARCS := f.arcs, TRANSITION_PRIORITY := f.priority])
  }

  function FieldsOf(tree: Tree): Result<Fields> {
    var state :- Closed(tree, {IDENTITY, SELECTION_POLICY, COLORS, PLACES, TRANSITIONS, ARCS, TRANSITION_PRIORITY});
    Ok(Fields(state[IDENTITY], state[SELECTION_POLICY], state[COLORS], state[PLACES], state[TRANSITIONS],
              state[ARCS], state[TRANSITION_PRIORITY]))
  }

  lemma FieldsRoundTrip(f: Fields)
    ensures FieldsOf(ObjectOf(f)) == Ok(f)
  {
    var keys := {IDENTITY, SELECTION_POLICY, COLORS, PLACES, TRANSITIONS, ARCS, TRANSITION_PRIORITY};
    assert ObjectOf(f).fields.Keys == keys;
  }

  // `_definition_state`: of the five lists, only the priorities are not counted.
  function EncodeFields(d: Definition): Result<Fields> {
    if |d.colors| > MAX_ITEMS || |d.places| > MAX_ITEMS || |d.transitions| > MAX_ITEMS || |d.arcs| > MAX_ITEMS
    then Raised
    else
      var identity :- EncodeText(d.identity);
      var colors :- EncodeArray(EncodeColor, d.colors);
      var places :- EncodeArray(EncodePlace, d.places);
      var transitions :- EncodeArray(EncodeTransition, d.transitions);
      var arcs :- EncodeArray(EncodeArc, d.arcs);
      var priority :- EncodeArray(EncodeText, d.priority);
      Ok(Fields(identity, Text(PolicyText(d.policy)), colors, places, transitions, arcs, priority))
  }

  function EncodeDefinition(d: Definition): Result<Tree> {
    var fields :- EncodeFields(d);
    Ok(ObjectOf(fields))
  }

  function DecodeFields(f: Fields): Result<Definition> {
    var colors :- DecodeArray(DecodeColor, f.colors);
    var places :- DecodeArray(DecodePlace, f.places);
    var transitions :- DecodeArray(DecodeTransition, f.transitions);
    var arcs :- DecodeArray(DecodeArc, f.arcs);
    var priority :- DecodeArray(DecodeText, f.priority);
    var identity :- DecodeText(f.identity);
    var policy :- DecodePolicy(f.policy);
    Ok(Definition(identity, policy, colors, places, transitions, arcs, priority))
  }

  // `_definition_from_state`
  function DecodeDefinition(tree: Tree): Result<Definition> {
    var fields :- FieldsOf(tree);
    DecodeFields(fields)
  }

  // Everything that only the decoder bounds.
  predicate Representable(d: Definition) {
    && (forall i | 0 <= i < |d.colors| :: GoodColor(d.colors[i]))
    && (forall i | 0 <= i < |d.places| :: GoodPlace(d.places[i]))
    && (forall i | 0 <= i < |d.transitions| :: GoodTransition(d.transitions[i]))
    && (forall i | 0 <= i < |d.arcs| :: GoodArc(d.arcs[i]))
    && |d.priority| <= MAX_ITEMS
  }

  lemma ColorsAgree(colors: seq<Color>)
    ensures Agrees(EncodeArray(EncodeColor, colors), t => DecodeArray(DecodeColor, t), colors,
                   |colors| <= MAX_ITEMS && forall i | 0 <= i < |colors| :: GoodColor(colors[i]))
  {
    forall i | 0 <= i < |colors| ensures Agrees(EncodeColor(colors[i]), DecodeColor, colors[i], GoodColor(colors[i])) {
      ColorAgrees(colors[i]);
    }
    ArrayAgrees(EncodeColor, DecodeColor, GoodColor, colors);
  }

  lemma PlacesAgree(places: seq<Place>)
    ensures Agrees(EncodeArray(EncodePlace, places), t => DecodeArray(DecodePlace, t), places,
                   |places| <= MAX_ITEMS && forall i | 0 <= i < |places| :: GoodPlace(places[i]))
  {
    forall i | 0 <= i < |places| ensures Agrees(EncodePlace(places[i]), DecodePlace, places[i], GoodPlace(places[i])) {
      PlaceAgrees(places[i]);
    }
    ArrayAgrees(EncodePlace, DecodePlace, GoodPlace, places);
  }

  lemma TransitionsAgree(transitions: seq<Transition>)
    ensures Agrees(EncodeArray(EncodeTransition, transitions), t => DecodeArray(DecodeTransition, t), transitions,
                   |transitions| <= MAX_ITEMS && forall i | 0 <= i < |transitions| :: GoodTransition(transitions[i]))
  {
    forall i | 0 <= i < |transitions|
      ensures Agrees(EncodeTransition(transitions[i]), DecodeTransition, transitions[i], GoodTransition(transitions[i]))
    {
      TransitionAgrees(transitions[i]);
    }
    ArrayAgrees(EncodeTransition, DecodeTransition, GoodTransition, transitions);
  }

  lemma ArcsAgree(arcs: seq<Arc>)
    ensures Agrees(EncodeArray(EncodeArc, arcs), t => DecodeArray(DecodeArc, t), arcs,
                   |arcs| <= MAX_ITEMS && forall i | 0 <= i < |arcs| :: GoodArc(arcs[i]))
  {
    forall i | 0 <= i < |arcs| ensures Agrees(EncodeArc(arcs[i]), DecodeArc, arcs[i], GoodArc(arcs[i])) {
      ArcAgrees(arcs[i]);
    }
    ArrayAgrees(EncodeArc, DecodeArc, GoodArc, arcs);
  }

  lemma FieldsDecode(d: Definition)
    requires EncodeFields(d).Ok?
    ensures DecodeFields(EncodeFields(d).value) == if Representable(d) then Ok(d) else Raised
  {
    ColorsAgree(d.colors);
    PlacesAgree(d.places);
    TransitionsAgree(d.transitions);
    ArcsAgree(d.arcs);
    TextsAgree(d.priority);
    PolicyAgrees(d.policy);
  }

  // Whatever the encoder accepts decodes to the original, exactly when the lists and the integer
  // texts it leaves unchecked are within the decoder's bounds; otherwise the decoder refuses it.
  lemma DefinitionRoundTrip(d: Definition)
    requires EncodeDefinition(d).Ok?
    ensures DecodeDefinition(EncodeDefinition(d).value) == if Representable(d) then Ok(d) else Raised
    ensures forall i | 0 <= i < |d.transitions| :: Depth(d.transitions[i].guard) <= MAX_DEPTH
  {
    FieldsDecode(d);
    FieldsRoundTrip(EncodeFields(d).value);
    GuardsAreShallow(d.transitions);
  }

  lemma GuardsAreShallow(transitions: seq<Transition>)
    requires EncodeArray(EncodeTransition, transitions).Ok?
    ensures forall i | 0 <= i < |transitions| :: Depth(transitions[i].guard) <= MAX_DEPTH
  {
    MapAllShape(EncodeTransition, transitions);
    forall i | 0 <= i < |transitions| ensures Depth(transitions[i].guard) <= MAX_DEPTH {
      assert EncodeTransition(transitions[i]).Ok?;
      EncodedGuardsAreShallow(transitions[i].guard, 0);
    }
  }

  // ---------- a definition that is encoded and not decoded ----------

  function Names(n: nat): seq<string> {
    seq(n, i requires 0 <= i < n => Decimals.Text(i))
  }

  // One transition with so many variables for external outputs; neither the constructors of the
  // kernel nor its validator bound their number.
  function Wide(n: nat): Definition {
    var transition := Transition("t", [], Names(n), Guard(TRUE, [], None, None));
    Definition("net", DETERMINISTIC_ONLY, [], [], [transition], [], ["t"])
  }

  lemma NamesAreGood(n: nat)
    requires n <= 100_000
    ensures EncodeArray(EncodeText, Names(n)).Ok?
    ensures forall i, j | 0 <= i < j < n :: Names(n)[i] != Names(n)[j]
  {
    assert Decimals.Power(2) == 10 * Decimals.Power(1) == 100;
    assert Decimals.Power(4) == 10 * Decimals.Power(3) == 100 * Decimals.Power(2);
    assert Decimals.Power(5) == 10 * Decimals.Power(4);
    var trees: seq<Tree> := seq(n, i requires 0 <= i < n => Text(Names(n)[i]));
    forall i | 0 <= i < n ensures EncodeText(Names(n)[i]) == Ok(trees[i]) {
      Decimals.TextLengthExact(i, 5);
      ShortTextIsGood(Names(n)[i]);
    }
    MapAllIs(EncodeText, Names(n), trees);
    forall i, j | 0 <= i < j < n ensures Names(n)[i] != Names(n)[j] {
      if Names(n)[i] == Names(n)[j] { Decimals.TextIsInjective(i, j); }
    }
  }

  lemma OneItem<A>(encode: A -> Result<Tree>, x: A)
    requires encode(x).Ok?
    ensures EncodeArray(encode, [x]) == Ok(Array([encode(x).value]))
  {
    MapAllIs(encode, [x], [encode(x).value]);
  }

  // With more than 65,536 of them, all different, the encoder accepts what the decoder refuses.
  lemma WideDefinitionsAreRefused(n: nat)
    requires n <= 100_000
    ensures EncodeDefinition(Wide(n)).Ok?
    ensures DecodeDefinition(EncodeDefinition(Wide(n)).value) == if n <= MAX_ITEMS then Ok(Wide(n)) else Raised
    ensures forall i, j | 0 <= i < j < n :: Names(n)[i] != Names(n)[j]
  {
    var t := Wide(n).transitions[0];
    NamesAreGood(n);
    ShortTextIsGood("net");
    ShortTextIsGood("t");
    assert EncodeTransition(t).Ok?;
    OneItem(EncodeTransition, t);
    OneItem(EncodeText, "t");
    DefinitionRoundTrip(Wide(n));
    assert Representable(Wide(n)) <==> GoodTransition(t);
  }

  // The kernel's integers are signed and of 64 bits, so their texts are always within the bound.
  lemma KernelIntegersAreGood(i: int)
    requires -0x8000_0000_0000_0000 <= i < 0x8000_0000_0000_0000
    ensures GoodValue(IntegerValue(i))
  {
    PowerOfNineteen();
    Decimals.TextLengthExact(if i < 0 then -i else i, 19);
  }

  lemma PowerOfNineteen()
    ensures Decimals.Power(19) == 10_000_000_000_000_000_000
  {
    assert Decimals.Power(2) == 10 * Decimals.Power(1) == 100;
    assert Decimals.Power(4) == 10 * Decimals.Power(3) == 100 * Decimals.Power(2);
    assert Decimals.Power(6) == 10 * Decimals.Power(5) == 100 * Decimals.Power(4);
    assert Decimals.Power(8) == 10 * Decimals.Power(7) == 100 * Decimals.Power(6);
    assert Decimals.Power(10) == 10 * Decimals.Power(9) == 100 * Decimals.Power(8);
    assert Decimals.Power(12) == 10 * Decimals.Power(11) == 100 * Decimals.Power(10);
    assert Decimals.Power(14) == 10 * Decimals.Power(13) == 100 * Decimals.Power(12);
    assert Decimals.Power(16) == 10 * Decimals.Power(15) == 100 * Decimals.Power(14);
    assert Decimals.Power(18) == 10 * Decimals.Power(17) == 100 * Decimals.Power(16);
  }

  // ---------- markings ----------

  datatype Token = Token(color: string, identity: Option<string>, value: Value)

  datatype PlaceMarking = PlaceMarking(place: string, tokens: seq<Token>)

  datatype Marking = Marking(identity: string, definition: string, places: seq<PlaceMarking>)

  function EncodeToken(token: Token): Result<Tree> {
    var color :- EncodeText(token.color);
    var identity :- (if token.identity.None? then Ok(Null) else EncodeText(token.identity.value));
    var value :- EncodeValue(token.value);
    Ok(Object(map[COLOR_IDENTITY := color, TOKEN_IDENTITY := identity, VALUE := value]))
  }

  function DecodeToken(tree: Tree): Result<Token> {
    var state :- Closed(tree, {COLOR_IDENTITY, TOKEN_IDENTITY, VALUE});
    var color :- DecodeText(state[COLOR_IDENTITY]);
    var value :- DecodeValue(state[VALUE]);
    if state[TOKEN_IDENTITY].Null? then Ok(Token(color, None, value))
    else
      var identity :- DecodeText(state[TOKEN_IDENTITY]);
      Ok(Token(color, Some(identity), value))
  }

  predicate GoodToken(token: Token) { GoodValue(token.value) }

  lemma TokenAgrees(token: Token)
    ensures Agrees(EncodeToken(token), DecodeToken, token, GoodToken(token))
  {
    ValueAgrees(token.value);
  }

  function EncodePlaceMarking(place: PlaceMarking): Result<Tree> {
    var identity :- EncodeText(place.place);
    var tokens :- EncodeArray(EncodeToken, place.tokens);
    Ok(Object(map[PLACE_IDENTITY := identity, TOKENS := tokens]))
  }

  // The bound on one place's tokens is the bound of the array.
  function DecodePlaceMarking(tree: Tree): Result<PlaceMarking> {
    var state :- Closed(tree, {PLACE_IDENTITY, TOKENS});
    var tokens :- DecodeArray(DecodeToken, state[TOKENS]);
    var identity :- DecodeText(state[PLACE_IDENTITY]);
    Ok(PlaceMarking(identity, tokens))
  }

  predicate GoodPlaceMarking(place: PlaceMarking) {
    |place.tokens| <= MAX_ITEMS && forall i | 0 <= i < |place.tokens| :: GoodToken(place.tokens[i])
  }

  lemma PlaceMarkingAgrees(place: PlaceMarking)
    ensures Agrees(EncodePlaceMarking(place), DecodePlaceMarking, place, GoodPlaceMarking(place))
  {
    forall i | 0 <= i < |place.tokens|
      ensures Agrees(EncodeToken(place.tokens[i]), DecodeToken, place.tokens[i], GoodToken(place.tokens[i]))
    {
      TokenAgrees(place.tokens[i]);
    }
    ArrayAgrees(EncodeToken, DecodeToken, GoodToken, place.tokens);
  }

  function TokenCount(places: seq<PlaceMarking>): nat {
    if places == [] then 0 else TokenCount(places[..|places| - 1]) + |places[|places| - 1].tokens|
  }

  // The places in order, with the running total of tokens checked after each.
  function EncodePlaces(places: seq<PlaceMarking>): Result<seq<Tree>> {
    if places == [] then Ok([])
    else
      var n := |places| - 1;
      var before :- EncodePlaces(places[..n]);
      if |places[n].tokens| > MAX_ITEMS || TokenCount(places) > MAX_ITEMS then Raised
      else
        var place :- EncodePlaceMarking(places[n]);
        Ok(before + [place])
  }

  function DecodePlaces(trees: seq<Tree>): Result<seq<PlaceMarking>> {
    if trees == [] then Ok([])
    else
      var n := |trees| - 1;
      var before :- DecodePlaces(trees[..n]);
      var place :- DecodePlaceMarking(trees[n]);
      if TokenCount(before) + |place.tokens| > MAX_ITEMS then Raised else Ok(before + [place])
  }

  function EncodeMarking(m: Marking): Result<Tree> {
    if |m.places| > MAX_ITEMS then Raised
    else
      var places :- EncodePlaces(m.places);
      var definition :- EncodeText(m.definition);
      var identity :- EncodeText(m.identity);
      Ok(Object(map[IDENTITY := identity, DEFINITION_IDENTITY := definition, PLACES := Array(places)]))
  }

  function DecodeMarking(tree: Tree): Result<Marking> {
    var state :- Closed(tree, {IDENTITY, DEFINITION_IDENTITY, PLACES});
    if !state[PLACES].Array? || |state[PLACES].items| > MAX_ITEMS then Raised
    else
      var places :- DecodePlaces(state[PLACES].items);
      var identity :- DecodeText(state[IDENTITY]);
      var definition :- DecodeText(state[DEFINITION_IDENTITY]);
      Ok(Marking(identity, definition, places))
  }

  lemma NextPlaceEncodes(places: seq<PlaceMarking>, i: nat)
    requires i < |places| && EncodePlaces(places[..i]).Ok?
    ensures TokenCount(places[..i + 1]) == TokenCount(places[..i]) + |places[i].tokens|
    ensures EncodePlaces(places[..i + 1]) ==
            if |places[i].tokens| > MAX_ITEMS || TokenCount(places[..i + 1]) > MAX_ITEMS
               || EncodePlaceMarking(places[i]).Raised?
            then Raised else Ok(EncodePlaces(places[..i]).value + [EncodePlaceMarking(places[i]).value])
  {
    var here := places[..i + 1];
    assert here[..i] == places[..i] && here[i] == places[i];
  }

  // The loop of the encoder.
  method EncodeAllPlaces(places: seq<PlaceMarking>) returns (trees: Result<seq<Tree>>)
    ensures trees == EncodePlaces(places)
  {
    var total, states := 0, [];
    for i := 0 to |places|
      invariant total == TokenCount(places[..i]) && EncodePlaces(places[..i]) == Ok(states)
    {
      NextPlaceEncodes(places, i);
      total := total + |places[i].tokens|;
      var place := EncodePlaceMarking(places[i]);
      if |places[i].tokens| > MAX_ITEMS || total > MAX_ITEMS || place.Raised? {
        EncodingStops(places, i + 1);
        return Raised;
      }
      states := states + [place.value];
    }
    assert places[..|places|] == places;
    return Ok(states);
  }

  lemma {:induction false} EncodingStops(places: seq<PlaceMarking>, i: nat)
    requires i <= |places| && EncodePlaces(places[..i]).Raised?
    ensures EncodePlaces(places).Raised?
    decreases |places|
  {
    if i < |places| {
      assert places[..|places| - 1][..i] == places[..i];
      EncodingStops(places[..|places| - 1], i);
    } else {
      assert places[..i] == places;
    }
  }

  predicate GoodPlaces(places: seq<PlaceMarking>) {
    forall i | 0 <= i < |places| :: GoodPlaceMarking(places[i])
  }

  lemma GoodPlacesStep(places: seq<PlaceMarking>)
    requires places != []
    ensures GoodPlaces(places) <==> GoodPlaces(places[..|places| - 1]) && GoodPlaceMarking(places[|places| - 1])
  {
    var n := |places| - 1;
    assert forall i | 0 <= i < n :: places[..n][i] == places[i];
  }

  lemma DecodeStep(trees: seq<Tree>, last: Tree)
    ensures DecodePlaces(trees + [last]) ==
            var before := DecodePlaces(trees);
            var place := DecodePlaceMarking(last);
            if before.Raised? || place.Raised? || TokenCount(before.value) + |place.value.tokens| > MAX_ITEMS
            then Raised else Ok(before.value + [place.value])
  {
    assert (trees + [last])[..|trees|] == trees;
  }

  lemma RoundTripStep(before: seq<PlaceMarking>, last: PlaceMarking, trees: seq<Tree>, tree: Tree)
    requires DecodePlaces(trees) == if GoodPlaces(before) then Ok(before) else Raised
    requires DecodePlaceMarking(tree) == if GoodPlaceMarking(last) then Ok(last) else Raised
    requires TokenCount(before) + |last.tokens| <= MAX_ITEMS
    ensures DecodePlaces(trees + [tree]) == if GoodPlaces(before + [last]) then Ok(before + [last]) else Raised
  {
    DecodeStep(trees, tree);
    GoodPlacesStep(before + [last]);
    assert (before + [last])[..|before|] == before;
  }

  lemma EncodeStep(places: seq<PlaceMarking>)
    requires places != [] && EncodePlaces(places).Ok?
    ensures var n := |places| - 1;
            && EncodePlaces(places[..n]).Ok? && EncodePlaceMarking(places[n]).Ok?
            && EncodePlaces(places).value == EncodePlaces(places[..n]).value + [EncodePlaceMarking(places[n]).value]
            && TokenCount(places[..n]) + |places[n].tokens| <= MAX_ITEMS
  {}

  predicate PlacesDecode(places: seq<PlaceMarking>, trees: seq<Tree>) {
    |trees| == |places| && DecodePlaces(trees) == if GoodPlaces(places) then Ok(places) else Raised
  }

  lemma PlacesStep(before: seq<PlaceMarking>, last: PlaceMarking, trees: seq<Tree>, tree: Tree)
    requires PlacesDecode(before, trees) && EncodePlaceMarking(last) == Ok(tree)
    requires TokenCount(before) + |last.tokens| <= MAX_ITEMS
    ensures PlacesDecode(before + [last], trees + [tree])
  {
    PlaceMarkingAgrees(last);
    RoundTripStep(before, last, trees, tree);
  }

  lemma NoPlaces()
    ensures EncodePlaces([]) == Ok([]) && PlacesDecode([], [])
  {}

  lemma LastPlaceDecodes(places: seq<PlaceMarking>, before: seq<Tree>)
    requires places != [] && EncodePlaces(places).Ok?
    requires EncodePlaces(places[..|places| - 1]) == Ok(before) && PlacesDecode(places[..|places| - 1], before)
    ensures PlacesDecode(places, EncodePlaces(places).value)
  {
    var n := |places| - 1;
    EncodeStep(places);
    PlacesStep(places[..n], places[n], before, EncodePlaceMarking(places[n]).value);
    assert places[..n] + [places[n]] == places;
  }

  lemma {:induction false} PlacesRoundTrip(places: seq<PlaceMarking>, trees: seq<Tree>)
    requires EncodePlaces(places) == Ok(trees)
    ensures PlacesDecode(places, trees)
    decreases |places|
  {
    if places == [] {
      NoPlaces();
    } else {
      var before := places[..|places| - 1];
      EncodeStep(places);
      PlacesRoundTrip(before, EncodePlaces(before).value);
      LastPlaceDecodes(places, EncodePlaces(before).value);
    }
  }

  // Of a marking only the values can be unrepresentable: every list is counted on both sides.
  lemma MarkingRoundTrip(m: Marking)
    requires EncodeMarking(m).Ok?
    ensures DecodeMarking(EncodeMarking(m).value) == if GoodPlaces(m.places) then Ok(m) else Raised
    ensures TokenCount(m.places) <= MAX_ITEMS
  {
    PlacesRoundTrip(m.places, EncodePlaces(m.places).value);
  }
}
