/** What the student projection keeps: stripping laws for teacher-only material, and round trips of documents. */
module ProjectionLaws {
  import opened Wrappers
  import opened Sequences
  import opened Json
  import opened ArtifactProjection

  // ---- stripping

  /** `_student_value` is idempotent, and changes exactly the values that contain a forbidden key. */
  lemma StudentValueLaws(v: Value)
    ensures StudentValue(StudentValue(v)) == StudentValue(v)
    ensures StudentValue(v) == v <==> !HasKey(FORBIDDEN, v)
  {
    StripIsIdempotent(FORBIDDEN, v);
    StripRemoves(FORBIDDEN, v);
  }

  lemma {:induction false} HasKeyOfUnion(a: set<string>, b: set<string>, v: Value)
    ensures HasKey(a + b, v) <==> HasKey(a, v) || HasKey(b, v)
    decreases v, 1
  {
    match v
    case Arr(items) => ItemsHaveKeyOfUnion(a, b, items);
    case Obj(fields) => FieldsHaveKeyOfUnion(a, b, fields);
    case _ =>
  }

  lemma {:induction false} ItemsHaveKeyOfUnion(a: set<string>, b: set<string>, items: seq<Value>)
    ensures AnyItemHasKey(a + b, items) <==> AnyItemHasKey(a, items) || AnyItemHasKey(b, items)
    decreases items, 0
  {
    if items != [] {
      HasKeyOfUnion(a, b, items[0]);
      ItemsHaveKeyOfUnion(a, b, items[1..]);
    }
  }

  lemma {:induction false} FieldsHaveKeyOfUnion(a: set<string>, b: set<string>, fields: seq<Field>)
    ensures AnyFieldHasKey(a + b, fields) <==> AnyFieldHasKey(a, fields) || AnyFieldHasKey(b, fields)
    decreases fields, 0
  {
    if fields != [] {
      HasKeyOfUnion(a, b, fields[0].value);
      FieldsHaveKeyOfUnion(a, b, fields[1..]);
    }
  }

  /**
   The projection strips seven keys and the leakage check looks for eight: a stripped value still counts as leaking
   exactly when the original holds a `rubric_solution` that can be reached without passing a stripped key.
   */
  lemma StrippedLeaksExactly(v: Value)
    requires WellFormed(v)
    ensures HasKey(TEACHER_ONLY, StudentValue(v))
       <==> exists path :: Avoids(path, FORBIDDEN) && KeyAt({"rubric_solution"}, v, path, "rubric_solution")
  {
    HasKeyOfUnion(FORBIDDEN, {"rubric_solution"}, StudentValue(v));
    StripRemoves(FORBIDDEN, v);
    SurvivesStripping(FORBIDDEN, {"rubric_solution"}, v);
    assert {"rubric_solution"} - FORBIDDEN == {"rubric_solution"};
  }

  // ---- options as a dictionary

  function OptionIds(options: seq<Choice>): seq<string> {
    Map((o: Choice) => o.entityId, options)
  }

  lemma {:induction false} PutLength(fields: seq<Field>, key: string, value: Value)
    ensures key in Keys(fields) ==> |Put(fields, key, value)| == |fields|
    ensures key !in Keys(fields) ==> Put(fields, key, value) == fields + [Field(key, value)]
  {
    if fields != [] {
      assert Keys(fields) == [fields[0].key] + Keys(fields[1..]);
      assert fields == [fields[0]] + fields[1..];
      PutLength(fields[1..], key, value);
    }
  }

  lemma {:induction false} PutKeys(fields: seq<Field>, key: string, value: Value)
    ensures Keys(Put(fields, key, value)) == if key in Keys(fields) then Keys(fields) else Keys(fields) + [key]
  {
    if fields == [] {
    } else {
      var head, tail := fields[0], fields[1..];
      assert fields == [head] + tail;
      PutKeys(tail, key, value);
      assert ([head.key] + Keys(tail)) + [key] == [head.key] + (Keys(tail) + [key]);
    }
  }

  lemma {:induction false} PutMembers(fields: seq<Field>, key: string, value: Value)
    ensures forall f <- Put(fields, key, value) :: f in fields || f == Field(key, value)
  {
    if fields != [] {
      PutMembers(fields[1..], key, value);
    }
  }

  lemma PutShape(fields: seq<Field>, key: string, value: Value)
    ensures key in Keys(fields) ==> |Put(fields, key, value)| == |fields|
    ensures key !in Keys(fields) ==> Put(fields, key, value) == fields + [Field(key, value)]
    ensures Elements(Keys(Put(fields, key, value))) == Elements(Keys(fields)) + {key}
    ensures forall f <- Put(fields, key, value) :: f in fields || f == Field(key, value)
  {
    PutLength(fields, key, value);
    PutKeys(fields, key, value);
    PutMembers(fields, key, value);
    ElementsAppend(Keys(fields), key);
  }

  function Fields(options: seq<Choice>): seq<Field> {
    Map((o: Choice) => Field(o.entityId, Str(o.text)), options)
  }

  lemma {:induction false} PutAllShape(options: seq<Choice>)
    ensures |PutAll(options)| <= |options|
    ensures |PutAll(options)| == |options| <==> Distinct(OptionIds(options))
    ensures Distinct(OptionIds(options)) ==> PutAll(options) == Fields(options)
    ensures Elements(Keys(PutAll(options))) == Elements(OptionIds(options))
    ensures forall f <- PutAll(options) :: f in Fields(options)
  {
    hide Put;
    if options != [] {
      var init, last := options[..|options| - 1], options[|options| - 1];
      PutAllShape(init);
      PutShape(PutAll(init), last.entityId, Str(last.text));
      assert OptionIds(options) == OptionIds(init) + [last.entityId];
      assert Fields(options) == Fields(init) + [Field(last.entityId, Str(last.text))];
      ElementsAppend(OptionIds(init), last.entityId);
      DistinctSnoc(OptionIds(init), last.entityId);
      assert last.entityId in Keys(PutAll(init)) <==> last.entityId in Elements(Keys(PutAll(init)));
      assert last.entityId in OptionIds(init) <==> last.entityId in Elements(OptionIds(init));
    }
  }

  lemma DistinctSnoc<T>(s: seq<T>, x: T)
    ensures Distinct(s + [x]) <==> Distinct(s) && x !in s
  {
    if Distinct(s + [x]) {
      forall i, j | 0 <= i < j < |s|
        ensures s[i] != s[j]
      {
        assert (s + [x])[i] != (s + [x])[j];
      }
      forall i | 0 <= i < |s|
        ensures s[i] != x
      {
        assert (s + [x])[i] != (s + [x])[|s|];
      }
    }
  }

  lemma {:induction false} StripStringFields(forbidden: set<string>, fields: seq<Field>)
    requires forall f <- fields :: f.value.Str?
    ensures |StripFields(forbidden, fields)| <= |fields|
    ensures |StripFields(forbidden, fields)| == |fields| <==> Elements(Keys(fields)) !! forbidden
    ensures Elements(Keys(fields)) !! forbidden ==> StripFields(forbidden, fields) == fields
    ensures forall f <- StripFields(forbidden, fields) :: f in fields
  {
    if fields != [] {
      var head, tail := fields[0], fields[1..];
      assert fields == [head] + tail;
      ElementsPrepend(head.key, Keys(tail));
      assert head in fields && Strip(forbidden, head.value) == head.value;
      StripStringFields(forbidden, tail);
      assert Elements(Keys(fields)) !! forbidden <==> head.key !in forbidden && Elements(Keys(tail)) !! forbidden;
    }
  }

  /** The options of a question after the trip through a dictionary and the student strip. */
  function RoundOptions(options: seq<Choice>): seq<Choice> {
    Choices(StripFields(FORBIDDEN, PutAll(options)))
  }

  /** No two options share an id, and no option id is a stripped key. */
  ghost predicate OptionsSurvive(options: seq<Choice>) {
    Distinct(OptionIds(options)) && Elements(OptionIds(options)) !! FORBIDDEN
  }

  lemma StringValues(options: seq<Choice>)
    ensures forall f <- PutAll(options) ::
      f.value.Str? && exists o :: o in options && f == Field(o.entityId, Str(o.text))
  {
    PutAllShape(options);
    forall f | f in PutAll(options)
      ensures f.value.Str? && exists o :: o in options && f == Field(o.entityId, Str(o.text))
    {
      var i :| 0 <= i < |options| && Fields(options)[i] == f;
      assert options[i] in options;
    }
  }

  lemma RoundOptionsExactly(options: seq<Choice>)
    ensures RoundOptions(options) == options <==> OptionsSurvive(options)
  {
    PutAllShape(options);
    StringValues(options);
    StripStringFields(FORBIDDEN, PutAll(options));
    if OptionsSurvive(options) {
      assert RoundOptions(options) == Choices(Fields(options));
      forall i | 0 <= i < |options|
        ensures Choices(Fields(options))[i] == options[i]
      {
      }
    }
  }

  // ---- student assessment documents

  function CardFor(q: Question): Value {
    CardOf(q.entityId, q.prompt, PutAll(q.options))
  }

  /** The component registry accepts the questions' cards, before and after the student strip. */
  ghost predicate CardsAccepted(registry: Registry, questions: seq<Question>) {
    forall q <- questions :: registry.accepts(CardFor(q)) && registry.accepts(StudentValue(CardFor(q)))
  }

  /** The component registry accepts every question card whose options are strings. */
  ghost predicate AcceptsStringCards(registry: Registry) {
    forall id, prompt, options: seq<Field> ::
      (forall f <- options :: f.value.Str?) ==> registry.accepts(CardOf(id, prompt, options))
  }

  lemma StripCons(forbidden: set<string>, f: Field, rest: seq<Field>)
    requires f.key !in forbidden
    ensures StripFields(forbidden, [f] + rest)
         == [Field(f.key, Strip(forbidden, f.value))] + StripFields(forbidden, rest)
  {
    assert ([f] + rest)[1..] == rest;
  }

  lemma GetCons(f: Field, rest: seq<Field>, key: string)
    ensures Get([f] + rest, key) == if f.key == key then Some(f.value) else Get(rest, key)
  {
    assert ([f] + rest)[1..] == rest;
  }

  /** The four fields of a card, one by one. */
  lemma CardIsFour(id: string, prompt: string, options: seq<Field>)
    ensures CardOf(id, prompt, options) ==
      Obj([Field("type", Str("question_card"))]
          + ([Field("id", Str(id))] + ([Field("text", Str(prompt))] + ([Field("options", Obj(options))] + []))))
  {
  }

  lemma StripCard(id: string, prompt: string, options: seq<Field>)
    ensures StudentValue(CardOf(id, prompt, options)) == CardOf(id, prompt, StripFields(FORBIDDEN, options))
  {
    CardIsFour(id, prompt, options);
    CardIsFour(id, prompt, StripFields(FORBIDDEN, options));
    var a, b := Field("type", Str("question_card")), Field("id", Str(id));
    var c, d := Field("text", Str(prompt)), Field("options", Obj(options));
    StripCons(FORBIDDEN, d, []);
    StripCons(FORBIDDEN, c, [d] + []);
    StripCons(FORBIDDEN, b, [c] + ([d] + []));
    StripCons(FORBIDDEN, a, [b] + ([c] + ([d] + [])));
  }

  lemma CardFields(id: string, prompt: string, options: seq<Field>)
    ensures var card := CardOf(id, prompt, options);
            && GetIn(card, "type") == Some(Str("question_card")) && GetIn(card, "id") == Some(Str(id))
            && GetIn(card, "text") == Some(Str(prompt)) && GetIn(card, "options") == Some(Obj(options))
  {
    CardIsFour(id, prompt, options);
    var a, b := Field("type", Str("question_card")), Field("id", Str(id));
    var c, d := Field("text", Str(prompt)), Field("options", Obj(options));
    assert "type"[1] == 'y' && "text"[1] == 'e' && "options"[0] == 'o' && "id"[0] == 'i';
    forall key
      ensures GetIn(CardOf(id, prompt, options), key) ==
        if key == "type" then Some(a.value) else if key == "id" then Some(b.value)
        else if key == "text" then Some(c.value) else if key == "options" then Some(d.value) else None
    {
      GetCons(d, [], key);
      GetCons(c, [d] + [], key);
      GetCons(b, [c] + ([d] + []), key);
      GetCons(a, [b] + ([c] + ([d] + [])), key);
    }
  }

  function RoundQuestion(q: Question): Question {
    q.(options := RoundOptions(q.options))
  }

  lemma CardReadsBack(q: Question)
    requires QuestionOk(q)
    ensures var card := StudentValue(CardOf(q.entityId, q.prompt, PutAll(q.options)));
            IsCard(card) && ToQuestion(card) == Ok(RoundQuestion(q))
  {
    var kept := StripFields(FORBIDDEN, PutAll(q.options));
    StripCard(q.entityId, q.prompt, PutAll(q.options));
    CardFields(q.entityId, q.prompt, kept);
    StringValues(q.options);
    StripStringFields(FORBIDDEN, PutAll(q.options));
  }

  function StudentCards(questions: seq<Question>): (r: seq<Value>)
    ensures |r| == |questions|
  {
    StripItems(FORBIDDEN, CardsOf(questions))
  }

  lemma {:induction false} CardsReadBack(questions: seq<Question>)
    requires forall q <- questions :: QuestionOk(q)
    ensures QuestionCards(StudentCards(questions)) == StudentCards(questions)
    ensures ToQuestions(StudentCards(questions)) == Ok(Map((q: Question) => RoundQuestion(q), questions))
  {
    var cards := StudentCards(questions);
    forall i | 0 <= i < |questions|
      ensures IsCard(cards[i]) && ToQuestion(cards[i]) == Ok(RoundQuestion(questions[i]))
    {
      StripItemAt(FORBIDDEN, CardsOf(questions), i);
      CardReadsBack(questions[i]);
    }
    forall card | card in cards
      ensures IsCard(card)
    {
    }
    FilterAll((v: Value) => IsCard(v), cards);
    QuestionsPointwise(cards, Map((q: Question) => RoundQuestion(q), questions));
  }

  lemma {:induction false} QuestionsPointwise(cards: seq<Value>, questions: seq<Question>)
    requires |cards| == |questions| && forall i :: 0 <= i < |cards| ==> ToQuestion(cards[i]) == Ok(questions[i])
    ensures ToQuestions(cards) == Ok(questions)
  {
    if cards != [] {
      var n := |cards| - 1;
      QuestionsPointwise(cards[..n], questions[..n]);
      assert questions == questions[..n] + [questions[n]];
    }
  }

  /** The single section of a student assessment, stripped. */
  lemma AssessmentSection(questions: seq<Question>)
    ensures var before := SectionsOf(Assessment(questions));
            var after := StripItems(FORBIDDEN, before);
            && |before| == |after| == 1 && before[0].Obj? && after[0].Obj?
            && GetIn(before[0], "components") == Some(Arr(CardsOf(questions)))
            && GetIn(after[0], "components") == Some(Arr(StudentCards(questions)))
  {
    var section := SectionsOf(Assessment(questions))[0];
    assert section.fields[1..] == [Field("components", Arr(CardsOf(questions)))];
    assert "title"[0] == 't' && "components"[0] == 'c';
    assert Get(section.fields[1..], "components") == Some(Arr(CardsOf(questions)));
    GetStripped(FORBIDDEN, section.fields, "components");
    assert StripItems(FORBIDDEN, [section]) == [Strip(FORBIDDEN, section)];
  }

  lemma AssessmentContentOk(registry: Registry, questions: seq<Question>, c: Content)
    requires c.sections == SectionsOf(Assessment(questions))
    ensures ContentOk(registry, c) && ContentOk(registry, StudentContent(c)) <==> CardsAccepted(registry, questions)
  {
    AssessmentSection(questions);
    var before, after := CardsOf(questions), StudentCards(questions);
    forall i | 0 <= i < |questions|
      ensures before[i] == CardFor(questions[i]) && after[i] == StudentValue(CardFor(questions[i]))
      ensures GetIn(before[i], "type").Some? && GetIn(after[i], "type").Some?
    {
      var q := questions[i];
      StripItemAt(FORBIDDEN, before, i);
      StripCard(q.entityId, q.prompt, PutAll(q.options));
      CardFields(q.entityId, q.prompt, PutAll(q.options));
      CardFields(q.entityId, q.prompt, StripFields(FORBIDDEN, PutAll(q.options)));
    }
    AllCardsAccepted(registry, questions, before, after);
    OneSectionOk(registry, c.sections, before);
    OneSectionOk(registry, StudentContent(c).sections, after);
  }

  lemma OneSectionOk(registry: Registry, sections: seq<Value>, cards: seq<Value>)
    requires |sections| == 1 && sections[0].Obj? && GetIn(sections[0], "components") == Some(Arr(cards))
    requires forall i :: 0 <= i < |cards| ==> GetIn(cards[i], "type").Some?
    ensures (forall s <- sections :: s.Obj? && TypedComponentsAccepted(registry, s))
       <==> forall card <- cards :: registry.accepts(card)
  {
    var section := sections[0];
    assert section in sections;
    assert forall s <- sections :: s == section;
  }

  lemma AllCardsAccepted(registry: Registry, questions: seq<Question>, before: seq<Value>, after: seq<Value>)
    requires |before| == |after| == |questions|
    requires forall i :: 0 <= i < |questions| ==>
      before[i] == CardFor(questions[i]) && after[i] == StudentValue(CardFor(questions[i]))
    ensures (forall card <- before :: registry.accepts(card)) && (forall card <- after :: registry.accepts(card))
       <==> CardsAccepted(registry, questions)
  {
    hide CardFor, StudentValue;
    if CardsAccepted(registry, questions) {
      forall i | 0 <= i < |questions|
        ensures registry.accepts(before[i]) && registry.accepts(after[i])
      {
        var q := questions[i];
        assert q in questions;
      }
    }
    if (forall card <- before :: registry.accepts(card)) && (forall card <- after :: registry.accepts(card)) {
      forall q | q in questions
        ensures registry.accepts(CardFor(q)) && registry.accepts(StudentValue(CardFor(q)))
      {
        var i :| 0 <= i < |questions| && questions[i] == q;
        assert before[i] in before && after[i] in after;
      }
    }
  }

  /** A registry that accepts every card with string options accepts all cards a document gives rise to. */
  lemma StringCardsAreEnough(registry: Registry, questions: seq<Question>)
    requires AcceptsStringCards(registry)
    ensures CardsAccepted(registry, questions)
  {
    forall q | q in questions
      ensures registry.accepts(CardFor(q)) && registry.accepts(StudentValue(CardFor(q)))
    {
      StringValues(q.options);
      StripStringFields(FORBIDDEN, PutAll(q.options));
      StripCard(q.entityId, q.prompt, PutAll(q.options));
    }
  }

  /** Metadata without teacher-only keys stays as it is, and gains only the document's id and version. */
  lemma MetadataSurvives(metadata: seq<Field>, id: string, version: int)
    requires !AnyFieldHasKey(TEACHER_ONLY, metadata)
    ensures var m := Put(Put(metadata, "document_id", Str(id)), "document_version", Num(version));
            StripFields(FORBIDDEN, m) == m && !AnyFieldHasKey(TEACHER_ONLY, m)
  {
    PutKeepsClean(TEACHER_ONLY, metadata, "document_id", Str(id));
    var once := Put(metadata, "document_id", Str(id));
    PutKeepsClean(TEACHER_ONLY, once, "document_version", Num(version));
    var m := Put(once, "document_version", Num(version));
    FieldsHaveKeyOfUnion(FORBIDDEN, {"rubric_solution"}, m);
    StripFieldsRemoves(FORBIDDEN, m);
  }

  lemma {:induction false} PutKeepsClean(keys: set<string>, fields: seq<Field>, key: string, value: Value)
    requires !AnyFieldHasKey(keys, fields) && key !in keys && !HasKey(keys, value)
    ensures !AnyFieldHasKey(keys, Put(fields, key, value))
  {
    if fields != [] && fields[0].key != key {
      PutKeepsClean(keys, fields[1..], key, value);
      assert ([fields[0]] + Put(fields[1..], key, value))[1..] == Put(fields[1..], key, value);
    } else if fields != [] {
      assert ([Field(key, value)] + fields[1..])[1..] == fields[1..];
    }
  }

  lemma StudentAssessmentPayload(questions: seq<Question>)
    requires questions != [] && forall q <- questions :: QuestionOk(q)
    ensures AssessmentPayload(StripItems(FORBIDDEN, SectionsOf(Assessment(questions))))
         == Ok(Assessment(Map((q: Question) => RoundQuestion(q), questions)))
  {
    AssessmentSection(questions);
    CardsReadBack(questions);
    var after := StripItems(FORBIDDEN, SectionsOf(Assessment(questions)));
    assert after[..0] == [];
    assert Cards(after[..0]) == [];
    assert Cards(after) == QuestionCards(Components(after[0]));
  }

  lemma RoundQuestionOk(q: Question)
    requires QuestionOk(q)
    ensures QuestionOk(RoundQuestion(q))
  {
    var kept := StripFields(FORBIDDEN, PutAll(q.options));
    StringValues(q.options);
    StripStringFields(FORBIDDEN, PutAll(q.options));
    forall o | o in Choices(kept)
      ensures o.entityId != "" && o.text != ""
    {
      var i :| 0 <= i < |kept| && Choices(kept)[i] == o;
      assert kept[i] in PutAll(q.options);
    }
  }

  lemma RoundQuestionsOk(questions: seq<Question>)
    requires forall q <- questions :: QuestionOk(q)
    ensures forall q <- Map((q: Question) => RoundQuestion(q), questions) :: QuestionOk(q)
  {
    var round := Map((q: Question) => RoundQuestion(q), questions);
    forall q | q in round
      ensures QuestionOk(q)
    {
      var i :| 0 <= i < |questions| && round[i] == q;
      RoundQuestionOk(questions[i]);
    }
  }

  function DocumentMetadata(d: Document): seq<Field> {
    Put(Put(d.metadata, "document_id", Str(d.documentId)), "document_version", Num(d.version))
  }

  /** An assessment document after the trip. */
  function RoundDocument(d: Document, documentId: string, artifactId: string, version: int): Document
    requires d.payload.Assessment?
  {
    Document(documentId, artifactId, d.artifactType, version, d.language, Student, d.title, d.theme,
             DocumentMetadata(d), Assessment(Map((q: Question) => RoundQuestion(q), d.payload.questions)))
  }

  lemma AssessmentRoundTrip(registry: Registry, d: Document, documentId: string, artifactId: string, version: int)
    requires DocumentOk(d) && d.audience == Student && d.payload.Assessment? && version >= 1
    ensures var r := RoundTrip(registry, d, documentId, artifactId, version);
            && (r.Ok? <==> CardsAccepted(registry, d.payload.questions))
            && (r.Ok? ==> r.value == RoundDocument(d, documentId, artifactId, version))
  {
    hide ContentOk, StripItems, StripFields, AnyFieldHasKey, AnyItemHasKey, AssessmentPayload, SectionsOf, QuestionOk,
         Put, RoundQuestion, CardsAccepted;
    var questions := d.payload.questions;
    var c := Content(d.artifactType, d.theme, d.title, SectionsOf(d.payload), DocumentMetadata(d),
                     [Field("language", Str(if d.language == Vi then "vi" else "en"))]);
    AssessmentContentOk(registry, questions, c);
    MetadataSurvives(d.metadata, d.documentId, d.version);
    StudentAssessmentPayload(questions);
    RoundQuestionsOk(questions);
    assert "vi"[0] == 'v' && "en"[0] == 'e';
  }

  /**
   A student assessment document makes the round trip exactly when the component registry accepts its question cards
   with and without their stripped options, and then with its title, theme, language and metadata; its payload comes
   back unchanged exactly when in every question the option ids are distinct and none of them is a stripped key.
   */
  lemma AssessmentRoundTripsExactly(registry: Registry, d: Document, documentId: string, artifactId: string,
                                    version: int)
    requires DocumentOk(d) && d.audience == Student && d.payload.Assessment? && version >= 1
    ensures var r := RoundTrip(registry, d, documentId, artifactId, version);
            && (r.Ok? <==> CardsAccepted(registry, d.payload.questions))
            && (r.Ok? ==>
                && r.value.artifactType == d.artifactType && r.value.audience == Student
                && r.value.title == d.title && r.value.theme == d.theme && r.value.language == d.language
                && r.value.metadata == DocumentMetadata(d)
                && (r.value.payload == d.payload <==> forall q <- d.payload.questions :: OptionsSurvive(q.options)))
  {
    AssessmentRoundTrip(registry, d, documentId, artifactId, version);
    RoundQuestionsExactly(d.payload.questions);
  }

  function AnswerOption(): Question {
    Question("q1", "What is six times seven?", [Choice("answer", "Forty-two"), Choice("B", "Forty-three")])
  }

  /** A quiz with an option named "answer". */
  function AnswerOptionQuiz(): Document {
    Document("doc", "artifact", Quiz, 1, En, Student, "Quiz", "default", [], Assessment([AnswerOption()]))
  }

  /** The trip loses the option named "answer", and only that. */
  lemma AnswerOptionIsLost(registry: Registry)
    requires AcceptsStringCards(registry)
    ensures var r := RoundTrip(registry, AnswerOptionQuiz(), "doc", "artifact", 1);
            && DocumentOk(AnswerOptionQuiz()) && r.Ok?
            && r.value.payload == Assessment([AnswerOption().(options := [Choice("B", "Forty-three")])])
  {
    hide RoundTrip, PutAll, StudentValue, CardsAccepted, AcceptsStringCards;
    var q, d := AnswerOption(), AnswerOptionQuiz();
    assert DocumentOk(d);
    StringCardsAreEnough(registry, [q]);
    AssessmentRoundTrip(registry, d, "doc", "artifact", 1);
    AnswerOptionRound();
    assert Map((q: Question) => RoundQuestion(q), [q]) == [RoundQuestion(q)];
  }

  lemma AnswerOptionRound()
    ensures RoundOptions(AnswerOption().options) == [Choice("B", "Forty-three")]
  {
    var options := AnswerOption().options;
    PutAllShape(options);
    assert OptionIds(options) == ["answer", "B"];
    var fields := Fields(options);
    assert PutAll(options) == fields == [Field("answer", Str("Forty-two")), Field("B", Str("Forty-three"))];
    assert fields[1..] == [Field("B", Str("Forty-three"))] && fields[1..][1..] == [];
    assert StripFields(FORBIDDEN, fields[1..]) == [Field("B", Str("Forty-three"))];
  }

  /** An object with a rubric solution, which the projection leaves in place. */
  function RubricObject(): Value {
    Obj([Field("rubric_solution", Str("Any proof by induction"))])
  }

  lemma RubricSolutionLeaks()
    ensures WellFormed(RubricObject()) && StudentValue(RubricObject()) == RubricObject()
    ensures HasKey(TEACHER_ONLY, StudentValue(RubricObject()))
  {
    var v := RubricObject();
    assert Keys(v.fields) == ["rubric_solution"];
    assert "rubric_solution"[0] == 'r' && "rationale"[1] == 'a';
    assert v.fields[1..] == [] && StripFields(FORBIDDEN, v.fields) == v.fields;
  }

  lemma RoundQuestionsExactly(questions: seq<Question>)
    ensures Map((q: Question) => RoundQuestion(q), questions) == questions
       <==> forall q <- questions :: OptionsSurvive(q.options)
  {
    var round := Map((q: Question) => RoundQuestion(q), questions);
    forall i | 0 <= i < |questions|
      ensures round[i] == questions[i] <==> OptionsSurvive(questions[i].options)
    {
      RoundOptionsExactly(questions[i].options);
    }
    if round == questions {
      forall q | q in questions
        ensures OptionsSurvive(q.options)
      {
        var i :| 0 <= i < |questions| && questions[i] == q;
        assert round[i] == questions[i];
      }
    } else {
      var i :| 0 <= i < |questions| && round[i] != questions[i];
      var q := questions[i];
      assert q in questions && !OptionsSurvive(q.options);
    }
  }

  // ---- student rich documents

  lemma RichSectionSurvives(registry: Registry, s: RichSection, index: nat)
    requires RichSectionOk(s) && !AnyItemHasKey(TEACHER_ONLY, s.components)
    ensures StudentValue(RichSectionContent(s)) == RichSectionContent(s)
    ensures ToRichSection(registry, RichSectionContent(s), index) == Ok(s)
  {
    ItemsHaveKeyOfUnion(FORBIDDEN, {"rubric_solution"}, s.components);
    StripItemsRemoves(FORBIDDEN, s.components);
    var a, b, c := Field("id", Str(s.entityId)), Field("title", Str(s.title)), Field("components", Arr(s.components));
    assert RichSectionContent(s).fields == [a] + ([b] + ([c] + []));
    StripCons(FORBIDDEN, c, []);
    StripCons(FORBIDDEN, b, [c] + []);
    StripCons(FORBIDDEN, a, [b] + ([c] + []));
    RichSectionFields(s);
  }

  lemma RichSectionFields(s: RichSection)
    ensures var v := RichSectionContent(s);
            && GetIn(v, "id") == Some(Str(s.entityId)) && GetIn(v, "title") == Some(Str(s.title))
            && GetIn(v, "components") == Some(Arr(s.components)) && GetIn(v, "content") == None
  {
    var a, b, c := Field("id", Str(s.entityId)), Field("title", Str(s.title)), Field("components", Arr(s.components));
    assert RichSectionContent(s).fields == [a] + ([b] + ([c] + []));
    assert "id"[0] == 'i' && "title"[0] == 't' && "components"[2] == 'm' && "content"[2] == 'n';
    forall key
      ensures Get(RichSectionContent(s).fields, key) ==
        if key == "id" then Some(a.value) else if key == "title" then Some(b.value)
        else if key == "components" then Some(c.value) else None
    {
      GetCons(c, [], key);
      GetCons(b, [c] + [], key);
      GetCons(a, [b] + ([c] + []), key);
    }
  }

  lemma {:induction false} RichSectionsSurvive(registry: Registry, sections: seq<RichSection>)
    requires forall s <- sections :: RichSectionOk(s) && !AnyItemHasKey(TEACHER_ONLY, s.components)
    ensures StripItems(FORBIDDEN, SectionsOf(Rich(sections))) == SectionsOf(Rich(sections))
    ensures ToRichSections(registry, SectionsOf(Rich(sections))) == Ok(sections)
  {
    var contents := SectionsOf(Rich(sections));
    forall i | 0 <= i < |sections|
      ensures StripItems(FORBIDDEN, contents)[i] == contents[i]
      ensures ToRichSection(registry, contents[i], i + 1) == Ok(sections[i])
    {
      StripItemAt(FORBIDDEN, contents, i);
      RichSectionSurvives(registry, sections[i], i + 1);
    }
    RichSectionsPointwise(registry, contents, sections);
  }

  lemma {:induction false} RichSectionsPointwise(registry: Registry, contents: seq<Value>, sections: seq<RichSection>)
    requires |contents| == |sections|
    requires forall i :: 0 <= i < |contents| ==> ToRichSection(registry, contents[i], i + 1) == Ok(sections[i])
    ensures ToRichSections(registry, contents) == Ok(sections)
  {
    hide ToRichSection;
    if contents != [] {
      var n := |contents| - 1;
      forall i | 0 <= i < n
        ensures ToRichSection(registry, contents[..n][i], i + 1) == Ok(sections[..n][i])
      {
        assert contents[..n][i] == contents[i];
      }
      RichSectionsPointwise(registry, contents[..n], sections[..n]);
      assert sections == sections[..n] + [sections[n]];
    }
  }

  lemma RichRoundTrip(registry: Registry, d: Document, documentId: string, artifactId: string, version: int)
    requires DocumentOk(d) && d.audience == Student && d.payload.Rich? && version >= 1
    requires forall s <- SectionsOf(d.payload) :: TypedComponentsAccepted(registry, s)
    ensures RoundTrip(registry, d, documentId, artifactId, version) ==
            Ok(Document(documentId, artifactId, d.artifactType, version, d.language, AudienceFor(d.artifactType),
                        d.title, d.theme, DocumentMetadata(d), d.payload))
  {
    hide StripItems, StripFields, ToRichSections, TypedComponentsAccepted, RichSectionOk, Put, AnyFieldHasKey,
         AnyItemHasKey, ToRichSection;
    RichSectionsSurvive(registry, d.payload.sections);
    MetadataSurvives(d.metadata, d.documentId, d.version);
    assert "vi"[0] == 'v' && "en"[0] == 'e';
  }

  /**
   A student rich document makes the round trip exactly when the component registry accepts its typed components,
   and then its payload, title, theme and language come back unchanged.
   */
  lemma RichRoundTripsExactly(registry: Registry, d: Document, documentId: string, artifactId: string, version: int)
    requires DocumentOk(d) && d.audience == Student && d.payload.Rich? && version >= 1
    ensures var r := RoundTrip(registry, d, documentId, artifactId, version);
            && (r.Ok? <==> forall s <- SectionsOf(d.payload) :: TypedComponentsAccepted(registry, s))
            && (r.Ok? ==> r.value.payload == d.payload && r.value.title == d.title && r.value.theme == d.theme
                          && r.value.language == d.language && r.value.artifactType == d.artifactType)
  {
    if forall s <- SectionsOf(d.payload) :: TypedComponentsAccepted(registry, s) {
      RichRoundTrip(registry, d, documentId, artifactId, version);
    }
  }
}
