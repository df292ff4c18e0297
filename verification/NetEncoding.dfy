// Exactly what the net codecs encode, and exactly what they decode.

module NetEncoding {
  import opened Wrappers
  import opened Json
  import opened NetCodec
  import Decimals

  // ---------- what is encoded ----------

  lemma ArrayEncodes<A>(encode: A -> Result<Tree>, xs: seq<A>)
    ensures EncodeArray(encode, xs).Ok? <==> forall i | 0 <= i < |xs| :: encode(xs[i]).Ok?
  {
    MapAllShape(encode, xs);
  }

  predicate GoodTexts(texts: seq<string>) {
    forall i | 0 <= i < |texts| :: GoodText(texts[i])
  }

  lemma TextsEncode(texts: seq<string>)
    ensures EncodeArray(EncodeText, texts).Ok? <==> GoodTexts(texts)
  {
    ArrayEncodes(EncodeText, texts);
  }

  predicate EncodableValue(value: Value) {
    match value
    case RealValue(hex) => GoodText(hex)
    case StringValue(text) => GoodText(text)
    case SequenceValue(texts) => GoodTexts(texts)
    case _ => true
  }

  lemma ValueEncodes(value: Value)
    ensures EncodeValue(value).Ok? <==> EncodableValue(value)
  {
    if value.SequenceValue? { TextsEncode(value.texts); }
  }

  predicate EncodableExpression(expression: Expression) {
    match expression
    case Literal(literal) => EncodableValue(literal)
    case Variable(variable) => GoodText(variable)
  }

  predicate EncodableOptional(expression: Option<Expression>) {
    expression.Some? ==> EncodableExpression(expression.value)
  }

  lemma OptionalEncodes(expression: Option<Expression>)
    ensures EncodeOptional(expression).Ok? <==> EncodableOptional(expression)
    ensures expression.Some? ==> (EncodeExpression(expression.value).Ok? <==> EncodableExpression(expression.value))
  {
    if expression.Some? && expression.value.Literal? { ValueEncodes(expression.value.literal); }
  }

  predicate EncodableGuard(guard: Guard) {
    && |guard.operands| <= MAX_ITEMS
    && (forall i | 0 <= i < |guard.operands| :: EncodableGuard(guard.operands[i]))
    && EncodableOptional(guard.left) && EncodableOptional(guard.right)
  }

  lemma {:induction false} DeepestBounds(guards: seq<Guard>, bound: nat)
    requires guards != []
    ensures DeepestOf(guards) <= bound <==> forall i | 0 <= i < |guards| :: Depth(guards[i]) <= bound
    decreases |guards|
  {
    var n := |guards| - 1;
    if n > 0 {
      DeepestBounds(guards[..n], bound);
      assert forall i | 0 <= i < n :: guards[..n][i] == guards[i];
    }
  }

  lemma {:induction false} GuardEncodes(guard: Guard, depth: nat)
    ensures EncodeGuard(guard, depth).Ok? <==> depth + Depth(guard) <= MAX_DEPTH && EncodableGuard(guard)
    decreases guard
  {
    var encode := operand => EncodeGuard(operand, depth + 1);
    var operands := guard.operands;
    forall i | 0 <= i < |operands|
      ensures encode(operands[i]).Ok? <==> depth + 1 + Depth(operands[i]) <= MAX_DEPTH && EncodableGuard(operands[i])
    {
      GuardEncodes(operands[i], depth + 1);
    }
    ArrayEncodes(encode, operands);
    OptionalEncodes(guard.left);
    OptionalEncodes(guard.right);
    if operands != [] && depth < MAX_DEPTH { DeepestBounds(operands, MAX_DEPTH - depth - 1); }
    GuardEncodesFromParts(guard, depth);
  }

  lemma GuardEncodesFromParts(guard: Guard, depth: nat)
    ensures EncodeGuard(guard, depth).Ok? <==>
            && depth <= MAX_DEPTH && |guard.operands| <= MAX_ITEMS
            && EncodeArray(operand => EncodeGuard(operand, depth + 1), guard.operands).Ok?
            && EncodeOptional(guard.left).Ok? && EncodeOptional(guard.right).Ok?
  {}

  predicate EncodablePattern(pattern: Pattern) {
    GoodTexts(pattern.colors) && (pattern.TokenPattern? ==> GoodText(pattern.variable))
  }

  predicate EncodableTemplate(template: Template) {
    GoodText(template.color) && EncodableExpression(template.value) && EncodableOptional(template.tokenIdentity)
  }

  predicate EncodableInscription(inscription: Inscription) {
    match inscription
    case Input(_, patterns) =>
      |patterns| <= MAX_ITEMS && forall i | 0 <= i < |patterns| :: EncodablePattern(patterns[i])
    case Output(templates) =>
      |templates| <= MAX_ITEMS && forall i | 0 <= i < |templates| :: EncodableTemplate(templates[i])
  }

  lemma PatternEncodes(pattern: Pattern)
    ensures EncodePattern(pattern).Ok? <==> EncodablePattern(pattern)
  {
    TextsEncode(pattern.colors);
  }

  lemma TemplateEncodes(template: Template)
    ensures EncodeTemplate(template).Ok? <==> EncodableTemplate(template)
  {
    OptionalEncodes(Some(template.value));
    OptionalEncodes(template.tokenIdentity);
  }

  lemma InscriptionEncodes(inscription: Inscription)
    ensures EncodeInscription(inscription).Ok? <==> EncodableInscription(inscription)
  {
    match inscription
    case Input(_, patterns) =>
      forall i | 0 <= i < |patterns| ensures EncodePattern(patterns[i]).Ok? <==> EncodablePattern(patterns[i]) {
        PatternEncodes(patterns[i]);
      }
      ArrayEncodes(EncodePattern, patterns);
    case Output(templates) =>
      forall i | 0 <= i < |templates| ensures EncodeTemplate(templates[i]).Ok? <==> EncodableTemplate(templates[i]) {
        TemplateEncodes(templates[i]);
      }
      ArrayEncodes(EncodeTemplate, templates);
  }

  predicate EncodableArc(arc: Arc) {
    GoodText(arc.identity) && GoodText(arc.place) && GoodText(arc.transition) && EncodableInscription(arc.inscription)
  }

  lemma ArcEncodes(arc: Arc)
    ensures EncodeArc(arc).Ok? <==> EncodableArc(arc)
  {
    InscriptionEncodes(arc.inscription);
  }

  lemma ColorEncodes(color: Color)
    ensures EncodeColor(color).Ok? <==> GoodText(color.identity)
  {
    ArrayEncodes(kind => Ok(Text(KindText(kind))), color.kinds);
  }

  predicate EncodablePlace(place: Place) { GoodText(place.identity) && GoodTexts(place.colors) }

  lemma PlaceEncodes(place: Place)
    ensures EncodePlace(place).Ok? <==> EncodablePlace(place)
  {
    TextsEncode(place.colors);
  }

  predicate EncodableTransition(transition: Transition) {
    && GoodText(transition.identity) && GoodTexts(transition.inputs) && GoodTexts(transition.externals)
    && Depth(transition.guard) <= MAX_DEPTH && EncodableGuard(transition.guard)
  }

  lemma TransitionEncodes(transition: Transition)
    ensures EncodeTransition(transition).Ok? <==> EncodableTransition(transition)
  {
    TextsEncode(transition.inputs);
    TextsEncode(transition.externals);
    GuardEncodes(transition.guard, 0);
  }

  // Every text is good, the counted lists and the operands of guards are within bounds, and no guard
  // is nested too deep.
  predicate Encodable(d: Definition) {
    && GoodText(d.identity) && GoodTexts(d.priority)
    && |d.colors| <= MAX_ITEMS && (forall i | 0 <= i < |d.colors| :: GoodText(d.colors[i].identity))
    && |d.places| <= MAX_ITEMS && (forall i | 0 <= i < |d.places| :: EncodablePlace(d.places[i]))
    && |d.transitions| <= MAX_ITEMS && (forall i | 0 <= i < |d.transitions| :: EncodableTransition(d.transitions[i]))
    && |d.arcs| <= MAX_ITEMS && (forall i | 0 <= i < |d.arcs| :: EncodableArc(d.arcs[i]))
  }

  lemma ListsEncode(d: Definition)
    ensures EncodeArray(EncodeColor, d.colors).Ok? <==> forall i | 0 <= i < |d.colors| :: GoodText(d.colors[i].identity)
    ensures EncodeArray(EncodePlace, d.places).Ok? <==> forall i | 0 <= i < |d.places| :: EncodablePlace(d.places[i])
    ensures EncodeArray(EncodeTransition, d.transitions).Ok? <==>
            forall i | 0 <= i < |d.transitions| :: EncodableTransition(d.transitions[i])
    ensures EncodeArray(EncodeArc, d.arcs).Ok? <==> forall i | 0 <= i < |d.arcs| :: EncodableArc(d.arcs[i])
  {
    forall color: Color ensures EncodeColor(color).Ok? <==> GoodText(color.identity) { ColorEncodes(color); }
    forall place: Place ensures EncodePlace(place).Ok? <==> EncodablePlace(place) { PlaceEncodes(place); }
    forall transition: Transition ensures EncodeTransition(transition).Ok? <==> EncodableTransition(transition) {
      TransitionEncodes(transition);
    }
    forall arc: Arc ensures EncodeArc(arc).Ok? <==> EncodableArc(arc) { ArcEncodes(arc); }
    ArrayEncodes(EncodeColor, d.colors);
    ArrayEncodes(EncodePlace, d.places);
    ArrayEncodes(EncodeTransition, d.transitions);
    ArrayEncodes(EncodeArc, d.arcs);
  }

  lemma DefinitionEncodes(d: Definition)
    ensures EncodeDefinition(d).Ok? <==> Encodable(d)
  {
    ListsEncode(d);
    TextsEncode(d.priority);
  }

  predicate EncodableToken(token: Token) {
    && GoodText(token.color) && EncodableValue(token.value)
    && (token.identity.Some? ==> GoodText(token.identity.value))
  }

  predicate EncodablePlaceMarking(place: PlaceMarking) {
    GoodText(place.place) && forall i | 0 <= i < |place.tokens| :: EncodableToken(place.tokens[i])
  }

  lemma PlaceMarkingEncodes(place: PlaceMarking)
    ensures EncodePlaceMarking(place).Ok? <==> EncodablePlaceMarking(place)
  {
    forall token: Token ensures EncodeToken(token).Ok? <==> EncodableToken(token) { ValueEncodes(token.value); }
    ArrayEncodes(EncodeToken, place.tokens);
  }

  predicate EachPlaceEncodes(places: seq<PlaceMarking>) {
    forall i | 0 <= i < |places| :: EncodePlaceMarking(places[i]).Ok?
  }

  lemma LastPlaceEncodes(places: seq<PlaceMarking>)
    requires places != []
    ensures var n := |places| - 1;
            && TokenCount(places) == TokenCount(places[..n]) + |places[n].tokens|
            && (EncodePlaces(places).Ok? <==>
                  EncodePlaces(places[..n]).Ok? && TokenCount(places) <= MAX_ITEMS && EncodePlaceMarking(places[n]).Ok?)
  {}

  lemma EachPlaceStep(places: seq<PlaceMarking>)
    requires places != []
    ensures var n := |places| - 1;
            EachPlaceEncodes(places) <==> EachPlaceEncodes(places[..n]) && EncodePlaceMarking(places[n]).Ok?
  {
    var n := |places| - 1;
    assert forall i | 0 <= i < n :: places[..n][i] == places[i];
  }

  lemma {:induction false} PlacesEncode(places: seq<PlaceMarking>)
    ensures EncodePlaces(places).Ok? <==> TokenCount(places) <= MAX_ITEMS && EachPlaceEncodes(places)
    decreases |places|
  {
    if places != [] {
      LastPlaceEncodes(places);
      EachPlaceStep(places);
      PlacesEncode(places[..|places| - 1]);
    }
  }

  // Every text is good and there are at most so many places and, in all of them, so many tokens.
  lemma MarkingEncodes(m: Marking)
    ensures EncodeMarking(m).Ok? <==>
            && GoodText(m.identity) && GoodText(m.definition)
            && |m.places| <= MAX_ITEMS && TokenCount(m.places) <= MAX_ITEMS
            && forall i | 0 <= i < |m.places| :: EncodablePlaceMarking(m.places[i])
  {
    PlacesEncode(m.places);
    forall place: PlaceMarking ensures EncodePlaceMarking(place).Ok? <==> EncodablePlaceMarking(place) {
      PlaceMarkingEncodes(place);
    }
  }

  // ---------- what is decoded ----------

  // A tree decodes to x only if it is the encoding of x.
  ghost predicate Encodes<A(!new)>(decode: Tree -> Result<A>, encode: A -> Result<Tree>, tree: Tree) {
    decode(tree).Ok? ==> encode(decode(tree).value) == Ok(tree)
  }

  lemma ArrayDecodes<A(!new)>(decode: Tree -> Result<A>, encode: A -> Result<Tree>, tree: Tree)
    requires tree.Array? ==> forall i | 0 <= i < |tree.items| :: Encodes(decode, encode, tree.items[i])
    ensures DecodeArray(decode, tree).Ok? ==>
              EncodeArray(encode, DecodeArray(decode, tree).value) == Ok(tree)
              && |DecodeArray(decode, tree).value| <= MAX_ITEMS
  {
    if DecodeArray(decode, tree).Ok? {
      MapAllShape(decode, tree.items);
      var xs := DecodeArray(decode, tree).value;
      forall i | 0 <= i < |xs| ensures encode(xs[i]) == Ok(tree.items[i]) {
        assert Encodes(decode, encode, tree.items[i]);
      }
      MapAllIs(encode, xs, tree.items);
    }
  }

  lemma TextsDecode(tree: Tree)
    ensures DecodeArray(DecodeText, tree).Ok? ==>
              EncodeArray(EncodeText, DecodeArray(DecodeText, tree).value) == Ok(tree)
              && |DecodeArray(DecodeText, tree).value| <= MAX_ITEMS
  {
    ArrayDecodes(DecodeText, EncodeText, tree);
  }

  lemma KindDecodes(tree: Tree)
    ensures DecodeKind(tree).Ok? ==> tree == Text(KindText(DecodeKind(tree).value))
  {}

  lemma OperatorDecodes(tree: Tree)
    ensures DecodeOperator(tree).Ok? ==> tree == Text(OperatorText(DecodeOperator(tree).value))
  {}

  lemma RepresentedDecodes(kind: ValueKind, tree: Tree)
    ensures DecodeAs(kind, tree).Ok? ==>
              KindOf(DecodeAs(kind, tree).value) == kind && Represented(DecodeAs(kind, tree).value) == Ok(tree)
  {
    if kind == STRING_SEQUENCE { TextsDecode(tree); }
  }

  lemma ValueDecodes(tree: Tree)
    ensures Encodes(DecodeValue, EncodeValue, tree)
  {
    if DecodeValue(tree).Ok? {
      var state := tree.fields;
      KindDecodes(state[KIND]);
      RepresentedDecodes(DecodeKind(state[KIND]).value, state[VALUE]);
      assert state == map[KIND := state[KIND], VALUE := state[VALUE]];
    }
  }

  lemma ExpressionDecodes(tree: Tree)
    ensures Encodes(DecodeExpression, EncodeExpression, tree)
  {
    if DecodeExpression(tree).Ok? {
      var state := tree.fields;
      if LITERAL in state {
        ValueDecodes(state[LITERAL]);
        assert state == map[KIND := state[KIND], LITERAL := state[LITERAL]];
      } else {
        assert state == map[KIND := state[KIND], VARIABLE_IDENTITY := state[VARIABLE_IDENTITY]];
      }
    }
  }

  lemma OptionalDecodes(tree: Tree)
    ensures Encodes(DecodeOptional, EncodeOptional, tree)
  {
    ExpressionDecodes(tree);
  }

  lemma {:induction false} GuardDecodes(tree: Tree, depth: nat)
    ensures DecodeGuard(tree, depth).Ok? ==> EncodeGuard(DecodeGuard(tree, depth).value, depth) == Ok(tree)
    decreases tree
  {
    if DecodeGuard(tree, depth).Ok? {
      var state := tree.fields;
      var decode, encode := operand => DecodeGuard(operand, depth + 1), operand => EncodeGuard(operand, depth + 1);
      var operands := state[OPERANDS];
      if operands.Array? {
        forall i | 0 <= i < |operands.items| ensures Encodes(decode, encode, operands.items[i]) {
          GuardDecodes(operands.items[i], depth + 1);
        }
      }
      ArrayDecodes(decode, encode, operands);
      OperatorDecodes(state[OPERATOR]);
      OptionalDecodes(state[LEFT]);
      OptionalDecodes(state[RIGHT]);
      assert state == map[OPERATOR := state[OPERATOR], OPERANDS := operands,
                          LEFT := state[LEFT], RIGHT := state[RIGHT]];
    }
  }

  lemma PatternDecodes(tree: Tree)
    ensures Encodes(DecodePattern, EncodePattern, tree)
  {
    if DecodePattern(tree).Ok? {
      var state := tree.fields;
      TextsDecode(state[ALLOWED_COLOR_IDENTITIES]);
      if VARIABLE_IDENTITY in state {
        assert state == map[KIND := state[KIND], VARIABLE_IDENTITY := state[VARIABLE_IDENTITY],
                            ALLOWED_COLOR_IDENTITIES := state[ALLOWED_COLOR_IDENTITIES]];
      } else {
        assert state == map[KIND := state[KIND], ALLOWED_COLOR_IDENTITIES := state[ALLOWED_COLOR_IDENTITIES]];
      }
    }
  }

  lemma TemplateDecodes(tree: Tree)
    ensures Encodes(DecodeTemplate, EncodeTemplate, tree)
  {
    if DecodeTemplate(tree).Ok? {
      var state := tree.fields;
      ExpressionDecodes(state[VALUE_EXPRESSION]);
      OptionalDecodes(state[TOKEN_IDENTITY_EXPRESSION]);
      assert state == map[COLOR_IDENTITY := state[COLOR_IDENTITY], VALUE_EXPRESSION := state[VALUE_EXPRESSION],
                          TOKEN_IDENTITY_EXPRESSION := state[TOKEN_IDENTITY_EXPRESSION]];
    }
  }

  lemma InputDecodes(tree: Tree)
    ensures DecodeInput(tree).Ok? ==>
              var input := DecodeInput(tree).value;
              input.Input? && EncodeInput(input.mode, input.patterns) == Ok(tree)
  {
    if DecodeInput(tree).Ok? {
      var state := tree.fields;
      forall t: Tree ensures Encodes(DecodePattern, EncodePattern, t) { PatternDecodes(t); }
      ArrayDecodes(DecodePattern, EncodePattern, state[PATTERNS]);
      assert state == map[MODE := state[MODE], PATTERNS := state[PATTERNS]];
    }
  }

  lemma OutputDecodes(tree: Tree)
    ensures DecodeOutput(tree).Ok? ==>
              DecodeOutput(tree).value.Output? && EncodeOutput(DecodeOutput(tree).value.templates) == Ok(tree)
  {
    if DecodeOutput(tree).Ok? {
      var state := tree.fields;
      forall t: Tree ensures Encodes(DecodeTemplate, EncodeTemplate, t) { TemplateDecodes(t); }
      ArrayDecodes(DecodeTemplate, EncodeTemplate, state[TEMPLATES]);
      assert state == map[TEMPLATES := state[TEMPLATES]];
    }
  }

  lemma InscriptionDecodes(tree: Tree)
    ensures Encodes(DecodeInscription, EncodeInscription, tree)
  {
    if DecodeInscription(tree).Ok? {
      var state := tree.fields;
      InputDecodes(state[VALUE]);
      OutputDecodes(state[VALUE]);
      assert state == map[KIND := state[KIND], VALUE := state[VALUE]];
    }
  }

  lemma ArcDecodes(tree: Tree)
    ensures Encodes(DecodeArc, EncodeArc, tree)
  {
    if DecodeArc(tree).Ok? {
      var state := tree.fields;
      InscriptionDecodes(state[INSCRIPTION]);
      assert state == map[IDENTITY := state[IDENTITY], PLACE_IDENTITY := state[PLACE_IDENTITY],
                          TRANSITION_IDENTITY := state[TRANSITION_IDENTITY], INSCRIPTION := state[INSCRIPTION]];
    }
  }

  lemma ColorDecodes(tree: Tree)
    ensures Encodes(DecodeColor, EncodeColor, tree)
  {
    if DecodeColor(tree).Ok? {
      var state := tree.fields;
      var encode := (kind: ValueKind) => Ok(Text(KindText(kind)));
      forall t: Tree ensures Encodes(DecodeKind, encode, t) { KindDecodes(t); }
      ArrayDecodes(DecodeKind, encode, state[ALLOWED_VALUE_KINDS]);
      assert state == map[IDENTITY := state[IDENTITY], ALLOWED_VALUE_KINDS := state[ALLOWED_VALUE_KINDS]];
    }
  }

  lemma PlaceDecodes(tree: Tree)
    ensures Encodes(DecodePlace, EncodePlace, tree)
  {
    if DecodePlace(tree).Ok? {
      var state := tree.fields;
      TextsDecode(state[ALLOWED_COLOR_IDENTITIES]);
      assert state == map[IDENTITY := state[IDENTITY], ALLOWED_COLOR_IDENTITIES := state[ALLOWED_COLOR_IDENTITIES]];
    }
  }

  lemma TransitionDecodes(tree: Tree)
    ensures Encodes(DecodeTransition, EncodeTransition, tree)
  {
    if DecodeTransition(tree).Ok? {
      var state := tree.fields;
      TextsDecode(state[INPUT_VARIABLE_IDENTITIES]);
      TextsDecode(state[EXTERNAL_OUTPUT_VARIABLE_IDENTITIES]);
      GuardDecodes(state[GUARD], 0);
      assert state == map[IDENTITY := state[IDENTITY], INPUT_VARIABLE_IDENTITIES := state[INPUT_VARIABLE_IDENTITIES],
                          EXTERNAL_OUTPUT_VARIABLE_IDENTITIES := state[EXTERNAL_OUTPUT_VARIABLE_IDENTITIES],
                          GUARD := state[GUARD]];
    }
  }

  lemma ListsDecode(f: Fields)
    requires DecodeFields(f).Ok?
    ensures var d := DecodeFields(f).value;
            && EncodeArray(EncodeColor, d.colors) == Ok(f.colors) && |d.colors| <= MAX_ITEMS
            && EncodeArray(EncodePlace, d.places) == Ok(f.places) && |d.places| <= MAX_ITEMS
            && EncodeArray(EncodeTransition, d.transitions) == Ok(f.transitions) && |d.transitions| <= MAX_ITEMS
            && EncodeArray(EncodeArc, d.arcs) == Ok(f.arcs) && |d.arcs| <= MAX_ITEMS
            && EncodeArray(EncodeText, d.priority) == Ok(f.priority)
  {
    forall t: Tree ensures Encodes(DecodeColor, EncodeColor, t) { ColorDecodes(t); }
    forall t: Tree ensures Encodes(DecodePlace, EncodePlace, t) { PlaceDecodes(t); }
    forall t: Tree ensures Encodes(DecodeTransition, EncodeTransition, t) { TransitionDecodes(t); }
    forall t: Tree ensures Encodes(DecodeArc, EncodeArc, t) { ArcDecodes(t); }
    ArrayDecodes(DecodeColor, EncodeColor, f.colors);
    ArrayDecodes(DecodePlace, EncodePlace, f.places);
    ArrayDecodes(DecodeTransition, EncodeTransition, f.transitions);
    ArrayDecodes(DecodeArc, EncodeArc, f.arcs);
    TextsDecode(f.priority);
  }

  lemma PolicyDecodes(tree: Tree)
    ensures DecodePolicy(tree).Ok? ==> tree == Text(PolicyText(DecodePolicy(tree).value))
  {}

  lemma FieldsEncodeBack(f: Fields)
    ensures DecodeFields(f).Ok? ==> EncodeFields(DecodeFields(f).value) == Ok(f)
  {
    if DecodeFields(f).Ok? {
      ListsDecode(f);
      NamesDecode(f);
      FieldsFromParts(DecodeFields(f).value, f);
    }
  }

  lemma NamesDecode(f: Fields)
    requires DecodeFields(f).Ok?
    ensures EncodeText(DecodeFields(f).value.identity) == Ok(f.identity)
    ensures f.policy == Text(PolicyText(DecodeFields(f).value.policy))
  {
    DecodedNames(f);
    PolicyDecodes(f.policy);
  }

  lemma DecodedNames(f: Fields)
    requires DecodeFields(f).Ok?
    ensures DecodeText(f.identity) == Ok(DecodeFields(f).value.identity)
    ensures DecodePolicy(f.policy) == Ok(DecodeFields(f).value.policy)
  {}

  lemma FieldsFromParts(d: Definition, f: Fields)
    requires EncodeText(d.identity) == Ok(f.identity) && f.policy == Text(PolicyText(d.policy))
    requires EncodeArray(EncodeColor, d.colors) == Ok(f.colors) && |d.colors| <= MAX_ITEMS
    requires EncodeArray(EncodePlace, d.places) == Ok(f.places) && |d.places| <= MAX_ITEMS
    requires EncodeArray(EncodeTransition, d.transitions) == Ok(f.transitions) && |d.transitions| <= MAX_ITEMS
    requires EncodeArray(EncodeArc, d.arcs) == Ok(f.arcs) && |d.arcs| <= MAX_ITEMS
    requires EncodeArray(EncodeText, d.priority) == Ok(f.priority)
    ensures EncodeFields(d) == Ok(f)
  {}

  lemma FieldsOfObject(tree: Tree)
    ensures FieldsOf(tree).Ok? ==> ObjectOf(FieldsOf(tree).value) == tree
  {
    if FieldsOf(tree).Ok? {
      var s := tree.fields;
      assert s == map[IDENTITY := s[IDENTITY], SELECTION_POLICY := s[SELECTION_POLICY], COLORS := s[COLORS],
                      PLACES := s[PLACES], TRANSITIONS := s[TRANSITIONS], ARCS := s[ARCS],
                      TRANSITION_PRIORITY := s[TRANSITION_PRIORITY]];
    }
  }

  lemma DefinitionDecodes(tree: Tree)
    ensures Encodes(DecodeDefinition, EncodeDefinition, tree)
  {
    if DecodeDefinition(tree).Ok? {
      FieldsOfObject(tree);
      FieldsEncodeBack(FieldsOf(tree).value);
    }
  }

  // The decoder accepts exactly the encodings of what it can represent: one tree for each definition
  // that is encodable and within the decoder's own bounds, and no other tree.
  lemma DecodedExactly(tree: Tree, d: Definition)
    ensures DecodeDefinition(tree) == Ok(d) <==> EncodeDefinition(d) == Ok(tree) && Representable(d)
    ensures DecodeDefinition(tree) == Ok(d) ==> Encodable(d)
  {
    DefinitionDecodes(tree);
    DefinitionEncodes(d);
    if EncodeDefinition(d) == Ok(tree) { DefinitionRoundTrip(d); }
  }

  // ---------- markings ----------

  lemma TokenDecodes(tree: Tree)
    ensures Encodes(DecodeToken, EncodeToken, tree)
  {
    if DecodeToken(tree).Ok? {
      var state := tree.fields;
      ValueDecodes(state[VALUE]);
      assert state == map[COLOR_IDENTITY := state[COLOR_IDENTITY], TOKEN_IDENTITY := state[TOKEN_IDENTITY],
                          VALUE := state[VALUE]];
    }
  }

  lemma PlaceMarkingDecodes(tree: Tree)
    ensures Encodes(DecodePlaceMarking, EncodePlaceMarking, tree)
    ensures DecodePlaceMarking(tree).Ok? ==> |DecodePlaceMarking(tree).value.tokens| <= MAX_ITEMS
  {
    if DecodePlaceMarking(tree).Ok? {
      var state := tree.fields;
      forall t: Tree ensures Encodes(DecodeToken, EncodeToken, t) { TokenDecodes(t); }
      ArrayDecodes(DecodeToken, EncodeToken, state[TOKENS]);
      assert state == map[PLACE_IDENTITY := state[PLACE_IDENTITY], TOKENS := state[TOKENS]];
    }
  }

  lemma DecodedParts(trees: seq<Tree>)
    requires trees != [] && DecodePlaces(trees).Ok?
    ensures var n := |trees| - 1;
            && DecodePlaces(trees[..n]).Ok? && DecodePlaceMarking(trees[n]).Ok?
            && DecodePlaces(trees).value == DecodePlaces(trees[..n]).value + [DecodePlaceMarking(trees[n]).value]
            && TokenCount(DecodePlaces(trees[..n]).value) + |DecodePlaceMarking(trees[n]).value.tokens| <= MAX_ITEMS
  {}

  lemma EncodedParts(places: seq<PlaceMarking>, trees: seq<Tree>, tree: Tree)
    requires var n := |places| - 1;
             && places != [] && TokenCount(places[..n]) + |places[n].tokens| <= MAX_ITEMS
             && EncodePlaces(places[..n]) == Ok(trees) && EncodePlaceMarking(places[n]) == Ok(tree)
    ensures EncodePlaces(places) == Ok(trees + [tree])
  {}

  lemma EncodedBack(before: seq<PlaceMarking>, last: PlaceMarking, trees: seq<Tree>)
    requires trees != [] && |before| == |trees| - 1 && TokenCount(before) + |last.tokens| <= MAX_ITEMS
    requires EncodePlaces(before) == Ok(trees[..|before|]) && EncodePlaceMarking(last) == Ok(trees[|before|])
    ensures EncodePlaces(before + [last]) == Ok(trees)
  {
    var n := |before|;
    assert (before + [last])[..n] == before;
    EncodedParts(before + [last], trees[..n], trees[n]);
    assert trees[..n] + [trees[n]] == trees;
  }

  lemma {:induction false} PlacesDecodeExactly(trees: seq<Tree>)
    ensures DecodePlaces(trees).Ok? ==>
              EncodePlaces(DecodePlaces(trees).value) == Ok(trees) && |DecodePlaces(trees).value| == |trees|
    decreases |trees|
  {
    if trees == [] {
      NoPlaces();
    } else if DecodePlaces(trees).Ok? {
      var n := |trees| - 1;
      DecodedParts(trees);
      PlacesDecodeExactly(trees[..n]);
      PlaceMarkingDecodes(trees[n]);
      EncodedBack(DecodePlaces(trees[..n]).value, DecodePlaceMarking(trees[n]).value, trees);
    }
  }

  lemma MarkingDecodes(tree: Tree)
    ensures Encodes(DecodeMarking, EncodeMarking, tree)
  {
    if DecodeMarking(tree).Ok? {
      var state := tree.fields;
      PlacesDecodeExactly(state[PLACES].items);
      assert state == map[IDENTITY := state[IDENTITY], DEFINITION_IDENTITY := state[DEFINITION_IDENTITY],
                          PLACES := state[PLACES]];
    }
  }

  lemma MarkingDecodedExactly(tree: Tree, m: Marking)
    ensures DecodeMarking(tree) == Ok(m) <==> EncodeMarking(m) == Ok(tree) && GoodPlaces(m.places)
  {
    MarkingDecodes(tree);
    if EncodeMarking(m) == Ok(tree) { MarkingRoundTrip(m); }
  }
}
