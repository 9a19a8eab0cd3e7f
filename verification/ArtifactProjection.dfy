/**
 Canonical artifact documents and their projection to and from artifact content, with teacher-only answer material
 removed for students. Slide decks, length limits and the component registry are not modelled: whether the registry
 accepts a typed component is a parameter, as is how Python's `str` writes a value.
 */
module ArtifactProjection {
  import opened Wrappers
  import opened Sequences
  import opened Json

  const FORBIDDEN: set<string> := {"answer", "answer_set", "accepted_answers", "correct_option_ids", "explain",
                                   "rationale", "wrong_reasons"}

  const TEACHER_ONLY: set<string> := FORBIDDEN + {"rubric_solution"}

  datatype ArtifactType = Lesson | Worksheet | Quiz | Drill | Recap | Infographic | AnswerKey | Roadmap
    | FlashcardDeck | ReadingPassage | ExitTicket

  predicate IsAssessment(t: ArtifactType) {
    t == Quiz || t == Drill || t == ExitTicket
  }

  datatype Registry = Registry(accepts: Value -> bool, str: Value -> string)

  datatype Content = Content(artifactType: ArtifactType, theme: string, title: string, sections: seq<Value>,
                             metadata: seq<Field>, accessibility: seq<Field>)

  datatype Audience = Student | Teacher | Print

  datatype Language = En | Vi

  datatype Choice = Choice(entityId: string, text: string)

  datatype Question = Question(entityId: string, prompt: string, options: seq<Choice>)

  datatype RichSection = RichSection(entityId: string, title: string, components: seq<Value>)

  datatype Block = Heading(text: string, level: int) | Paragraph(text: string)

  datatype BlockSection = BlockSection(entityId: string, title: string, blocks: seq<Block>)

  datatype Payload = Assessment(questions: seq<Question>) | Rich(sections: seq<RichSection>)
    | Blocks(blockSections: seq<BlockSection>)

  datatype Document = Document(documentId: string, artifactId: string, artifactType: ArtifactType, version: int,
                               language: Language, audience: Audience, title: string, theme: string,
                               metadata: seq<Field>, payload: Payload)

  datatype Error = InvalidContent | BadQuestionCard | BadOptions | NoQuestions | EmptySection(index: nat)
    | InvalidDocument

  function StudentValue(v: Value): Value {
    Strip(FORBIDDEN, v)
  }

  // ---- validation

  predicate TypedComponentsAccepted(registry: Registry, section: Value) {
    var components := GetIn(section, "components");
    components.Some? && components.value.Arr? ==>
      forall c <- components.value.items :: GetIn(c, "type").Some? ==> registry.accepts(c)
  }

  predicate ContentOk(registry: Registry, c: Content) {
    c.sections != [] && forall s <- c.sections :: s.Obj? && TypedComponentsAccepted(registry, s)
  }

  predicate QuestionOk(q: Question) {
    q.entityId != "" && q.prompt != "" && forall o <- q.options :: o.entityId != "" && o.text != ""
  }

  predicate RichSectionOk(s: RichSection) {
    s.entityId != "" && s.title != "" && s.components != [] && forall c <- s.components :: c.Obj?
  }

  predicate BlockSectionOk(s: BlockSection) {
    && s.entityId != "" && s.title != "" && s.blocks != []
    && forall b <- s.blocks :: b.text != "" && (b.Heading? ==> 1 <= b.level <= 4)
  }

  predicate PayloadOk(t: ArtifactType, payload: Payload) {
    match payload
    case Assessment(questions) => IsAssessment(t) && questions != [] && forall q <- questions :: QuestionOk(q)
    case Rich(sections) => !IsAssessment(t) && sections != [] && forall s <- sections :: RichSectionOk(s)
    case Blocks(sections) => !IsAssessment(t) && sections != [] && forall s <- sections :: BlockSectionOk(s)
  }

  /** The document's own field names are not teacher-only, so only its metadata and rich components can leak. */
  predicate Leaks(d: Document) {
    || HasKey(TEACHER_ONLY, Obj(d.metadata))
    || (d.payload.Rich? && exists s <- d.payload.sections :: HasKey(TEACHER_ONLY, Arr(s.components)))
  }

  predicate DocumentOk(d: Document) {
    d.version >= 1 && PayloadOk(d.artifactType, d.payload) && (d.audience == Student ==> !Leaks(d))
  }

  // ---- content to document

  function Components(section: Value): seq<Value> {
    var components := GetIn(section, "components");
    if components.Some? && components.value.Arr? then components.value.items else []
  }

  predicate IsCard(v: Value) {
    GetIn(v, "type") == Some(Str("question_card"))
  }

  function QuestionCards(components: seq<Value>): seq<Value> {
    Filter((v: Value) => IsCard(v), components)
  }

  /** All question cards, section by section. */
  function Cards(sections: seq<Value>): seq<Value> {
    if sections == [] then []
    else Cards(sections[..|sections| - 1]) + QuestionCards(Components(sections[|sections| - 1]))
  }

  /** A non-empty string. */
  function Text(v: Option<Value>): Option<string> {
    if v.Some? && v.value.Str? && v.value.s != "" then Some(v.value.s) else None
  }

  predicate OptionsOk(options: Option<Value>) {
    && options.Some? && options.value.Obj?
    && forall f <- options.value.fields :: f.key != "" && f.value.Str? && f.value.s != ""
  }

  function Choices(fields: seq<Field>): seq<Choice> {
    Map((f: Field) => Choice(f.key, if f.value.Str? then f.value.s else ""), fields)
  }

  function ToQuestion(card: Value): Result<Question, Error> {
    var id, prompt, options := Text(GetIn(card, "id")), Text(GetIn(card, "text")), GetIn(card, "options");
    if id == None || prompt == None then Err(BadQuestionCard)
    else if !OptionsOk(options) then Err(BadOptions)
    else Ok(Question(id.value, prompt.value, Choices(options.value.fields)))
  }

  /** The questions of the cards, or the objection to the first card that has one. */
  function ToQuestions(cards: seq<Value>): Result<seq<Question>, Error> {
    if cards == [] then Ok([])
    else
      var before := ToQuestions(cards[..|cards| - 1]);
      if before.Err? then before
      else
        var last := ToQuestion(cards[|cards| - 1]);
        if last.Err? then Err(last.error) else Ok(before.value + [last.value])
  }

  function AssessmentPayload(sections: seq<Value>): Result<Payload, Error> {
    var questions := ToQuestions(Cards(sections));
    if questions.Err? then Err(questions.error)
    else if questions.value == [] then Err(NoQuestions)
    else Ok(Assessment(questions.value))
  }

  predicate Truthy(v: Value) {
    match v
    case Null => false
    case Boolean(b) => b
    case Num(n) => n != 0
    case Str(s) => s != ""
    case Arr(items) => items != []
    case Obj(fields) => fields != []
  }

  function Written(registry: Registry, v: Value): string {
    if v.Str? then v.s else registry.str(v)
  }

  function ToRichSection(registry: Registry, section: Value, index: nat): Result<RichSection, Error> {
    var content, id, title := Text(GetIn(section, "content")), GetIn(section, "id"), Text(GetIn(section, "title"));
    if Components(section) == [] && content == None then Err(EmptySection(index))
    else
      var number := registry.str(Num(index));
      Ok(RichSection(
        if id.Some? && Truthy(id.value) then Written(registry, id.value) else "section-" + number,
        if title.Some? then title.value else "Section " + number,
        if Components(section) != [] then Components(section)
        else [Obj([Field("type", Str("paragraph")), Field("text", Str(content.value))])]))
  }

  function ToRichSections(registry: Registry, sections: seq<Value>): Result<seq<RichSection>, Error> {
    if sections == [] then Ok([])
    else
      var before := ToRichSections(registry, sections[..|sections| - 1]);
      if before.Err? then before
      else
        var last := ToRichSection(registry, sections[|sections| - 1], |sections|);
        if last.Err? then Err(last.error) else Ok(before.value + [last.value])
  }

  function PayloadOf(registry: Registry, c: Content): Result<Payload, Error> {
    if IsAssessment(c.artifactType) then AssessmentPayload(c.sections)
    else
      var sections := ToRichSections(registry, c.sections);
      if sections.Err? then Err(sections.error) else Ok(Rich(sections.value))
  }

  function StudentContent(c: Content): Content {
    c.(metadata := StripFields(FORBIDDEN, c.metadata), sections := StripItems(FORBIDDEN, c.sections))
  }

  function AudienceFor(t: ArtifactType): Audience {
    if t == AnswerKey then Teacher else Student
  }

  function Prepared(c: Content): Content {
    if AudienceFor(c.artifactType) == Student then StudentContent(c) else c
  }

  function DocumentFrom(registry: Registry, c: Content, documentId: string, artifactId: string,
                        version: int): Result<Document, Error>
  {
    var prepared := Prepared(c);
    if !ContentOk(registry, c) || !ContentOk(registry, prepared) then Err(InvalidContent)
    else
      var payload := PayloadOf(registry, prepared);
      if payload.Err? then Err(payload.error)
      else
        var d := Document(documentId, artifactId, c.artifactType, version,
                          if Get(c.accessibility, "language") == Some(Str("vi")) then Vi else En,
                          AudienceFor(c.artifactType), c.title, c.theme, prepared.metadata, payload.value);
        if DocumentOk(d) then Ok(d) else Err(InvalidDocument)
  }

  lemma {:induction false} ToQuestionsPrefix(a: seq<Value>, b: seq<Value>)
    requires ToQuestions(a).Err?
    ensures ToQuestions(a + b) == ToQuestions(a)
  {
    if b == [] {
      assert a + b == a;
    } else {
      ToQuestionsPrefix(a, b[..|b| - 1]);
      assert (a + b)[..|a + b| - 1] == a + b[..|b| - 1];
    }
  }

  lemma CardsStep(sections: seq<Value>, i: nat)
    requires i < |sections|
    ensures Cards(sections[..i + 1]) == Cards(sections[..i]) + QuestionCards(Components(sections[i]))
  {
    assert sections[..i + 1][..i] == sections[..i];
  }

  lemma {:induction false} CardsSplit(sections: seq<Value>, i: nat) returns (rest: seq<Value>)
    requires i <= |sections|
    ensures Cards(sections) == Cards(sections[..i]) + rest
  {
    hide QuestionCards, Components;
    if i == |sections| {
      assert sections[..i] == sections;
      rest := [];
    } else {
      var n := |sections| - 1;
      assert sections[..n][..i] == sections[..i];
      rest := CardsSplit(sections[..n], i);
      rest := rest + QuestionCards(Components(sections[n]));
    }
  }

  /** `_assessment_payload`. */
  method BuildAssessmentPayload(sections: seq<Value>) returns (r: Result<Payload, Error>)
    ensures r == AssessmentPayload(sections)
  {
    var questions: seq<Question> := [];
    for i := 0 to |sections|
      invariant ToQuestions(Cards(sections[..i])) == Ok(questions)
    {
      CardsStep(sections, i);
      var added := AddQuestions(Components(sections[i]), questions, Cards(sections[..i]));
      if added.Err? {
        ghost var rest := CardsSplit(sections, i + 1);
        ToQuestionsPrefix(Cards(sections[..i + 1]), rest);
        return Err(added.error);
      }
      questions := added.value;
    }
    assert sections[..|sections|] == sections;
    if questions == [] {
      return Err(NoQuestions);
    }
    r := Ok(Assessment(questions));
  }

  lemma OneMoreComponent(cards: seq<Value>, components: seq<Value>, j: nat)
    requires j < |components|
    ensures var done := cards + QuestionCards(components[..j]);
            var next := if IsCard(components[j]) then done + [components[j]] else done;
            && cards + QuestionCards(components[..j + 1]) == next
            && cards + QuestionCards(components) == next + QuestionCards(components[j + 1..])
  {
    assert components[..j + 1] == components[..j] + [components[j]];
    FilterAppend((v: Value) => IsCard(v), components[..j], components[j]);
    FilterSplit((v: Value) => IsCard(v), components, j + 1);
  }

  method AddQuestions(components: seq<Value>, questions0: seq<Question>, ghost cards: seq<Value>)
    returns (r: Result<seq<Question>, Error>)
    requires ToQuestions(cards) == Ok(questions0)
    ensures r == ToQuestions(cards + QuestionCards(components))
  {
    var questions := questions0;
    ghost var done := cards;
    for j := 0 to |components|
      invariant done == cards + QuestionCards(components[..j]) && ToQuestions(done) == Ok(questions)
    {
      OneMoreComponent(cards, components, j);
      if IsCard(components[j]) {
        var question := ToQuestion(components[j]);
        done := done + [components[j]];
        if question.Err? {
          ToQuestionsPrefix(done, QuestionCards(components[j + 1..]));
          return Err(question.error);
        }
        questions := questions + [question.value];
      }
    }
    assert components[..|components|] == components;
    r := Ok(questions);
  }

  /** `_rich_payload`. */
  method BuildRichPayload(registry: Registry, sections: seq<Value>) returns (r: Result<seq<RichSection>, Error>)
    ensures r == ToRichSections(registry, sections)
  {
    var built: seq<RichSection> := [];
    for i := 0 to |sections|
      invariant ToRichSections(registry, sections[..i]) == Ok(built)
    {
      assert sections[..i + 1][..i] == sections[..i];
      var section := ToRichSection(registry, sections[i], i + 1);
      if section.Err? {
        RichPrefix(registry, sections, i + 1);
        return Err(section.error);
      }
      built := built + [section.value];
    }
    assert sections[..|sections|] == sections;
    r := Ok(built);
  }

  lemma {:induction false} RichPrefix(registry: Registry, sections: seq<Value>, i: nat)
    requires i <= |sections| && ToRichSections(registry, sections[..i]).Err?
    ensures ToRichSections(registry, sections) == ToRichSections(registry, sections[..i])
  {
    hide ToRichSection;
    if i == |sections| {
      assert sections[..i] == sections;
    } else {
      var n := |sections| - 1;
      assert sections[..n][..i] == sections[..i];
      RichPrefix(registry, sections[..n], i);
    }
  }

  // ---- document to content

  function PutAll(choices: seq<Choice>): seq<Field> {
    if choices == [] then []
    else
      var last := choices[|choices| - 1];
      Put(PutAll(choices[..|choices| - 1]), last.entityId, Str(last.text))
  }

  /** A question card without answers. */
  function CardOf(id: string, prompt: string, options: seq<Field>): Value {
    Obj([Field("type", Str("question_card")), Field("id", Str(id)), Field("text", Str(prompt)),
         Field("options", Obj(options))])
  }

  function CardsOf(questions: seq<Question>): seq<Value> {
    Map((q: Question) => CardOf(q.entityId, q.prompt, PutAll(q.options)), questions)
  }

  function RichSectionContent(s: RichSection): Value {
    Obj([Field("id", Str(s.entityId)), Field("title", Str(s.title)), Field("components", Arr(s.components))])
  }

  function BlockContent(b: Block): Value {
    match b
    case Heading(text, level) =>
      Obj([Field("type", Str("heading")), Field("text", Str(text)), Field("level", Num(level))])
    case Paragraph(text) => Obj([Field("type", Str("paragraph")), Field("text", Str(text))])
  }

  function SectionsOf(payload: Payload): seq<Value> {
    match payload
    case Assessment(questions) =>
      [Obj([Field("title", Str("Questions")), Field("components", Arr(CardsOf(questions)))])]
    case Rich(sections) => Map((s: RichSection) => RichSectionContent(s), sections)
    case Blocks(sections) =>
      Map((s: BlockSection) =>
            Obj([Field("id", Str(s.entityId)), Field("title", Str(s.title)),
                 Field("components", Arr(Map((b: Block) => BlockContent(b), s.blocks)))]), sections)
  }

  function ContentFrom(registry: Registry, d: Document): Result<Content, Error> {
    var metadata := Put(Put(d.metadata, "document_id", Str(d.documentId)), "document_version", Num(d.version));
    var c := Content(d.artifactType, d.theme, d.title, SectionsOf(d.payload), metadata,
                     [Field("language", Str(if d.language == Vi then "vi" else "en"))]);
    if ContentOk(registry, c) then Ok(c) else Err(InvalidContent)
  }

  /** Document to content and back, under new ids. */
  function RoundTrip(registry: Registry, d: Document, documentId: string, artifactId: string,
                     version: int): Result<Document, Error>
  {
    var c := ContentFrom(registry, d);
    if c.Err? then Err(c.error) else DocumentFrom(registry, c.value, documentId, artifactId, version)
  }
}
