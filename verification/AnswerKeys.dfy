/** The answer key artifact: one section for each answer of an answer set. */
module AnswerKeys {
  import opened Wrappers
  import opened Sequences
  import opened Json
  import opened ArtifactProjection
  import opened ProjectionLaws
  import opened AnswerSets

  /** `str(component.get("id"))`. */
  function WrittenId(registry: Registry, card: Value): string {
    var id := GetIn(card, "id");
    if id.Some? then Written(registry, id.value) else registry.str(Null)
  }

  /** The cards by written id, the last one winning. */
  function CardsById(registry: Registry, cards: seq<Value>): map<string, Value> {
    if cards == [] then map[]
    else
      var last := cards[|cards| - 1];
      CardsById(registry, cards[..|cards| - 1])[WrittenId(registry, last) := last]
  }

  /** `", ".join(...)`. */
  function Join(parts: seq<string>): string {
    if parts == [] then ""
    else if |parts| == 1 then parts[0]
    else parts[0] + ", " + Join(parts[1..])
  }

  function AnswerText(e: Entry): string {
    Join(if e.correctOptionIds != [] then e.correctOptionIds else e.acceptedAnswers)
  }

  function Summary(registry: Registry, card: Value): string {
    var text := GetIn(card, "text");
    if text.Some? && Truthy(text.value) then Written(registry, text.value) else ""
  }

  function Paragraph(text: string): Value {
    Obj([Field("type", Str("paragraph")), Field("text", Str(text))])
  }

  function KeySection(registry: Registry, e: Entry, card: Value): Value {
    Obj([Field("id", Str("answer-key-" + e.questionId)), Field("title", Str("Question " + e.questionId)),
         Field("summary", Str(Summary(registry, card))),
         Field("components", Arr([Paragraph("Answer: " + AnswerText(e))]))])
  }

  /** The sections of the key, or the first question that is missing. */
  ghost predicate IsKey(registry: Registry, cards: seq<Value>, entries: seq<Entry>, r: Result<seq<Value>, string>) {
    var byId := CardsById(registry, cards);
    match r
    case Ok(sections) =>
      |sections| == |entries| && forall i :: 0 <= i < |entries| ==>
        entries[i].questionId in byId && sections[i] == KeySection(registry, entries[i], byId[entries[i].questionId])
    case Err(missing) =>
      exists i :: 0 <= i < |entries| && entries[i].questionId == missing && missing !in byId
                  && forall j :: 0 <= j < i ==> entries[j].questionId in byId
  }

  /** The sections `derive_answer_key_artifact` appends. */
  method KeySections(registry: Registry, artifact: seq<Value>, entries: seq<Entry>)
    returns (r: Result<seq<Value>, string>)
    ensures IsKey(registry, Cards(artifact), entries, r)
  {
    hide KeySection, CardsById, Cards;
    var byId := CardsById(registry, Cards(artifact));
    var sections: seq<Value> := [];
    for i := 0 to |entries|
      invariant IsKey(registry, Cards(artifact), entries[..i], Ok(sections))
    {
      var e := entries[i];
      if e.questionId !in byId {
        assert e in entries;
        return Err(e.questionId);
      }
      sections := sections + [KeySection(registry, e, byId[e.questionId])];
    }
    assert entries[..|entries|] == entries;
    r := Ok(sections);
  }

  /** `derive_answer_key_artifact` around its sections. */
  function KeyContent(registry: Registry, title: Option<Value>, sections: seq<Value>, theme: string,
                      language: string): Content
  {
    Content(AnswerKey, theme, "Answer Key: " + (if title.Some? then Written(registry, title.value) else "Assessment"),
            sections, [Field("total_questions", Num(|sections|))], [Field("language", Str(language))])
  }

  // ---- keys of derived answer sets

  lemma {:induction false} CardIsIndexed(registry: Registry, cards: seq<Value>, card: Value)
    requires card in cards
    ensures WrittenId(registry, card) in CardsById(registry, cards)
  {
    var n := |cards| - 1;
    assert cards == cards[..n] + [cards[n]];
    if card in cards[..n] {
      CardIsIndexed(registry, cards[..n], card);
    }
  }

  lemma {:induction false} EntryHasCard(cards: seq<Value>, e: Entry) returns (card: Value)
    requires EntriesOf(cards).Ok? && e in EntriesOf(cards).value
    ensures card in cards && GetIn(card, "id") == Some(Str(e.questionId)) && e.questionId != ""
  {
    var n := |cards| - 1;
    assert cards == cards[..n] + [cards[n]];
    if e in EntriesOf(cards[..n]).value {
      card := EntryHasCard(cards[..n], e);
    } else {
      card := cards[n];
    }
  }

  /** No question of a derived answer set is missing, so its key is always made. */
  lemma DerivedKeyExists(registry: Registry, artifact: seq<Value>, entries: seq<Entry>, r: Result<seq<Value>, string>)
    requires EntriesOf(Cards(artifact)) == Ok(entries) && IsKey(registry, Cards(artifact), entries, r)
    ensures r.Ok?
  {
    if r.Err? {
      var e :| e in entries && e.questionId == r.error && r.error !in CardsById(registry, Cards(artifact));
      var card := EntryHasCard(Cards(artifact), e);
      CardIsIndexed(registry, Cards(artifact), card);
    }
  }

  lemma KeySectionFields(registry: Registry, e: Entry, card: Value)
    ensures var v := KeySection(registry, e, card);
            && GetIn(v, "id") == Some(Str("answer-key-" + e.questionId))
            && GetIn(v, "title") == Some(Str("Question " + e.questionId))
            && GetIn(v, "components") == Some(Arr([Paragraph("Answer: " + AnswerText(e))]))
            && GetIn(v, "content") == None
  {
    hide AnswerText, Summary, Paragraph;
    var a, b := Field("id", Str("answer-key-" + e.questionId)), Field("title", Str("Question " + e.questionId));
    var c := Field("summary", Str(Summary(registry, card)));
    var d := Field("components", Arr([Paragraph("Answer: " + AnswerText(e))]));
    assert KeySection(registry, e, card).fields == [a] + ([b] + ([c] + ([d] + [])));
    assert "id"[0] == 'i' && "title"[0] == 't' && "summary"[0] == 's' && "components"[2] == 'm' && "content"[2] == 'n';
    forall key
      ensures Get(KeySection(registry, e, card).fields, key) ==
        if key == "id" then Some(a.value) else if key == "title" then Some(b.value)
        else if key == "summary" then Some(c.value)
        else if key == "components" then Some(d.value) else None
    {
      GetCons(d, [], key);
      GetCons(c, [d] + [], key);
      GetCons(b, [c] + ([d] + []), key);
      GetCons(a, [b] + ([c] + ([d] + [])), key);
    }
  }

  /** The section of the key document for one answer. */
  function KeyRichSection(e: Entry): RichSection {
    RichSection("answer-key-" + e.questionId, "Question " + e.questionId, [Paragraph("Answer: " + AnswerText(e))])
  }

  lemma KeySectionReads(registry: Registry, e: Entry, card: Value, index: nat)
    requires registry.accepts(Paragraph("Answer: " + AnswerText(e)))
    ensures var v := KeySection(registry, e, card);
            && v.Obj? && TypedComponentsAccepted(registry, v)
            && ToRichSection(registry, v, index) == Ok(KeyRichSection(e))
            && RichSectionOk(KeyRichSection(e))
  {
    KeySectionFields(registry, e, card);
  }

  /** The component registry accepts the paragraphs of an answer key. */
  ghost predicate AcceptsParagraphs(registry: Registry) {
    forall text :: registry.accepts(Paragraph(text))
  }

  /**
   The answer key of a derived answer set is always a valid document for teachers, with one section for each answer,
   in order, that names the question and spells out its answer; nothing of it is stripped.
   */
  lemma DerivedKeyIsTeacherDocument(registry: Registry, artifact: seq<Value>, sourceDocumentId: string,
                                    sourceVersion: int, sections: seq<Value>, title: Option<Value>, theme: string,
                                    language: string, documentId: string, artifactId: string, version: int)
    requires Derive(artifact, sourceDocumentId, sourceVersion).Ok? && AcceptsParagraphs(registry) && version >= 1
    requires var entries := Derive(artifact, sourceDocumentId, sourceVersion).value.entries;
             IsKey(registry, Cards(artifact), entries, Ok(sections))
    ensures var entries := Derive(artifact, sourceDocumentId, sourceVersion).value.entries;
            var content := KeyContent(registry, title, sections, theme, language);
            var r := DocumentFrom(registry, content, documentId, artifactId, version);
            && r.Ok? && r.value.audience == Teacher
            && r.value.payload == Rich(Map((e: Entry) => KeyRichSection(e), entries))
  {
    hide ToRichSection, TypedComponentsAccepted, RichSectionOk, KeySection, KeyRichSection, Derive, CardsById, Cards,
         ToRichSections, StripItems, StripFields, HasKey;
    var entries := Derive(artifact, sourceDocumentId, sourceVersion).value.entries;
    DerivedHasEntries(artifact, sourceDocumentId, sourceVersion);
    var rich := Map((e: Entry) => KeyRichSection(e), entries);
    forall i | 0 <= i < |entries|
      ensures sections[i].Obj? && TypedComponentsAccepted(registry, sections[i])
      ensures ToRichSection(registry, sections[i], i + 1) == Ok(rich[i]) && RichSectionOk(rich[i])
    {
      KeySectionReads(registry, entries[i], CardsById(registry, Cards(artifact))[entries[i].questionId], i + 1);
    }
    RichSectionsPointwise(registry, sections, rich);
  }

  lemma DerivedHasEntries(artifact: seq<Value>, sourceDocumentId: string, sourceVersion: int)
    requires Derive(artifact, sourceDocumentId, sourceVersion).Ok?
    ensures Derive(artifact, sourceDocumentId, sourceVersion).value.entries != []
  {
  }
}
