/**
 What documents made from content hold: no answers for students, at any depth; and how sections, questions and block
 documents are read, told by the fields of the values.
 */
module DocumentLaws {
  import opened Wrappers
  import opened Sequences
  import opened Json
  import opened ArtifactProjection
  import opened ProjectionLaws

  // ---- answer separation

  const TEACHER_KEYS := ["answer", "answer_set", "accepted_answers", "correct_option_ids", "explain", "rationale",
                         "wrong_reasons", "rubric_solution"]

  /** No path in the value leads to an object with one of the eight keys reserved for teachers. */
  ghost predicate HidesAnswers(v: Value) {
    forall path, key :: key in TEACHER_KEYS && Lookup(v, path).Some? ==> GetIn(Lookup(v, path).value, key).None?
  }

  lemma WithoutKeysHides(v: Value)
    requires !HasKey(TEACHER_ONLY, v)
    ensures HidesAnswers(v)
  {
    forall path, key | key in TEACHER_KEYS && Lookup(v, path).Some?
      ensures GetIn(Lookup(v, path).value, key).None?
    {
      if GetIn(Lookup(v, path).value, key).Some? {
        PathHasKey(TEACHER_ONLY, v, path, key);
      }
    }
  }

  /** A document for students hides answers in its metadata and every component; only answer keys are for teachers. */
  lemma StudentDocumentHidesAnswers(registry: Registry, c: Content, documentId: string, artifactId: string,
                                    version: int)
    requires DocumentFrom(registry, c, documentId, artifactId, version).Ok?
    ensures var d := DocumentFrom(registry, c, documentId, artifactId, version).value;
            && (d.audience == Teacher <==> c.artifactType == AnswerKey)
            && (d.audience == Student <==> c.artifactType != AnswerKey)
            && (d.audience == Student ==> HidesAnswers(Obj(d.metadata)))
            && (d.audience == Student && d.payload.Rich? ==>
                  forall s <- d.payload.sections :: HidesAnswers(Arr(s.components)))
  {
    hide ContentOk, PayloadOk, PayloadOf, Prepared, HidesAnswers, HasKey;
    var d := DocumentFrom(registry, c, documentId, artifactId, version).value;
    if d.audience == Student {
      WithoutKeysHides(Obj(d.metadata));
      if d.payload.Rich? {
        forall s | s in d.payload.sections
          ensures HidesAnswers(Arr(s.components))
        {
          WithoutKeysHides(Arr(s.components));
        }
      }
    }
  }

  /** The rest of a document comes from the content as it is, with the language it declares and English without. */
  lemma DocumentFields(registry: Registry, c: Content, documentId: string, artifactId: string, version: int)
    requires DocumentFrom(registry, c, documentId, artifactId, version).Ok?
    ensures var d := DocumentFrom(registry, c, documentId, artifactId, version).value;
            && d.documentId == documentId && d.artifactId == artifactId && d.version == version >= 1
            && d.artifactType == c.artifactType && d.title == c.title && d.theme == c.theme
            && (d.language == Vi <==> Get(c.accessibility, "language") == Some(Str("vi")))
            && (d.payload.Assessment? <==> c.artifactType in {Quiz, Drill, ExitTicket})
            && (c.artifactType == AnswerKey ==> d.metadata == c.metadata)
            && (c.artifactType != AnswerKey ==> d.metadata == StripFields(FORBIDDEN, c.metadata))
  {
    hide ContentOk, Leaks, ToRichSections, AssessmentPayload, StripItems, StripFields;
  }

  // ---- questions and sections

  /** The value is a string with something in it. */
  predicate Says(v: Option<Value>, s: string) {
    v == Some(Str(s)) && s != ""
  }

  /** A card is read as a question when it has an id, a text, and options that all have names and texts. */
  lemma QuestionExactly(card: Value)
    ensures var r, options := ToQuestion(card), GetIn(card, "options");
            && (r.Ok? <==> && (exists id :: Says(GetIn(card, "id"), id))
                           && (exists text :: Says(GetIn(card, "text"), text))
                           && options.Some? && options.value.Obj?
                           && forall f <- options.value.fields :: f.key != "" && exists s :: Says(Some(f.value), s))
            && (r.Ok? ==>
                  && Says(GetIn(card, "id"), r.value.entityId) && Says(GetIn(card, "text"), r.value.prompt)
                  && |r.value.options| == |options.value.fields|
                  && forall i :: 0 <= i < |r.value.options| ==>
                       && r.value.options[i].entityId == options.value.fields[i].key
                       && Says(Some(options.value.fields[i].value), r.value.options[i].text))
            && (r == Err(BadQuestionCard)
                <==> !((exists id :: Says(GetIn(card, "id"), id)) && exists text :: Says(GetIn(card, "text"), text)))
  {
    TextExactly(GetIn(card, "id"));
    TextExactly(GetIn(card, "text"));
    var options := GetIn(card, "options");
    if options.Some? && options.value.Obj? {
      forall f | f in options.value.fields
        ensures (exists s :: Says(Some(f.value), s)) <==> f.value.Str? && f.value.s != ""
      {
        TextExactly(Some(f.value));
      }
    }
  }

  lemma TextExactly(v: Option<Value>)
    ensures Text(v).Some? <==> exists s :: Says(v, s)
    ensures Text(v).Some? ==> Says(v, Text(v).value)
  {
    if v.Some? && v.value.Str? && v.value.s != "" {
      assert Says(v, v.value.s);
    }
  }

  /** The values of an id that count as none. */
  predicate Falsy(v: Value) {
    v in {Null, Boolean(false), Num(0), Str(""), Arr([]), Obj([])}
  }

  /**
   A section needs components or a text. It keeps its components, or gets one paragraph with its text; a missing id or
   title becomes one with the section's number.
   */
  lemma RichSectionExactly(registry: Registry, section: Value, index: nat)
    ensures var r, listed := ToRichSection(registry, section, index), GetIn(section, "components");
            var id, number := GetIn(section, "id"), registry.str(Num(index));
            var some := listed.Some? && listed.value.Arr? && listed.value.items != [];
            && (r == Err(EmptySection(index)) <==> r.Err?)
            && (r.Ok? <==> some || exists text :: Says(GetIn(section, "content"), text))
            && (r.Ok? ==>
                  && ((exists title :: Says(GetIn(section, "title"), title)) ==>
                        Says(GetIn(section, "title"), r.value.title))
                  && ((forall title :: !Says(GetIn(section, "title"), title)) ==> r.value.title == "Section " + number)
                  && (id.None? || Falsy(id.value) ==> r.value.entityId == "section-" + number)
                  && (id.Some? && !Falsy(id.value) ==>
                        r.value.entityId == if id.value.Str? then id.value.s else registry.str(id.value))
                  && (some ==> r.value.components == listed.value.items)
                  && (!some ==> exists text :: Says(GetIn(section, "content"), text)
                                               && r.value.components == [ParagraphOf(text)]))
  {
    TextExactly(GetIn(section, "content"));
    TextExactly(GetIn(section, "title"));
    var id := GetIn(section, "id");
    if id.Some? {
      assert Truthy(id.value) <==> !Falsy(id.value);
    }
    var content := Text(GetIn(section, "content"));
    if content.Some? {
      assert Says(GetIn(section, "content"), content.value);
    }
  }

  function ParagraphOf(text: string): Value {
    Obj([Field("type", Str("paragraph")), Field("text", Str(text))])
  }

  // ---- when a document is made

  /** The question cards of a content are the components of that type listed in its sections. */
  lemma {:induction false} CardsExactly(sections: seq<Value>, v: Value)
    ensures v in Cards(sections)
       <==> GetIn(v, "type") == Some(Str("question_card"))
            && exists s, items :: s in sections && GetIn(s, "components") == Some(Arr(items)) && v in items
  {
    if sections != [] {
      var init, last := sections[..|sections| - 1], sections[|sections| - 1];
      CardsExactly(init, v);
      assert sections == init + [last];
      assert last in sections;
      FilterMembers((c: Value) => IsCard(c), Components(last));
      var listed := GetIn(last, "components");
      if listed.Some? && listed.value.Arr? {
        assert listed == Some(Arr(listed.value.items));
      }
    }
  }

  /** There are sections, all objects, and the registry accepts the components in them that declare a type. */
  ghost predicate SectionsAccepted(registry: Registry, sections: seq<Value>) {
    && sections != []
    && forall s <- sections :: s.Obj?
         && forall items, v :: GetIn(s, "components") == Some(Arr(items)) && v in items && GetIn(v, "type").Some? ==>
              registry.accepts(v)
  }

  lemma ContentOkExactly(registry: Registry, c: Content)
    ensures ContentOk(registry, c) <==> SectionsAccepted(registry, c.sections)
  {
    forall s
      ensures TypedComponentsAccepted(registry, s)
         <==> forall items, v :: GetIn(s, "components") == Some(Arr(items)) && v in items && GetIn(v, "type").Some? ==>
                registry.accepts(v)
    {
      var listed := GetIn(s, "components");
      if listed.Some? && listed.value.Arr? {
        assert listed == Some(Arr(listed.value.items));
      }
    }
  }

  lemma {:induction false} ToQuestionsExactly(cards: seq<Value>)
    ensures ToQuestions(cards).Ok? <==> forall card <- cards :: ToQuestion(card).Ok?
    ensures ToQuestions(cards).Ok? ==>
              |ToQuestions(cards).value| == |cards| && forall q <- ToQuestions(cards).value :: QuestionOk(q)
  {
    hide ToQuestion, QuestionOk;
    if cards != [] {
      var init, last := cards[..|cards| - 1], cards[|cards| - 1];
      ToQuestionsExactly(init);
      assert cards == init + [last];
      assert last in cards;
      if ToQuestion(last).Ok? {
        ReadQuestionOk(last);
      }
    }
  }

  lemma ReadQuestionOk(card: Value)
    requires ToQuestion(card).Ok?
    ensures QuestionOk(ToQuestion(card).value)
  {
    var fields := GetIn(card, "options").value.fields;
    forall o | o in ToQuestion(card).value.options
      ensures o.entityId != "" && o.text != ""
    {
      var i :| 0 <= i < |fields| && Choices(fields)[i] == o;
      assert fields[i] in fields;
    }
  }

  lemma StrippedMetadataLeaks(metadata: seq<Field>)
    ensures HasKey(TEACHER_ONLY, Obj(StripFields(FORBIDDEN, metadata)))
       <==> HasKey({"rubric_solution"}, Obj(StripFields(FORBIDDEN, metadata)))
  {
    var v := Obj(StripFields(FORBIDDEN, metadata));
    HasKeyOfUnion(FORBIDDEN, {"rubric_solution"}, v);
    StripRemoves(FORBIDDEN, Obj(metadata));
  }

  /**
   A quiz, drill or exit ticket becomes a document exactly when its sections are accepted as they are and stripped, it
   has a question card, every stripped card reads as a question, and no rubric solution is left in its metadata.
   */
  lemma AssessmentMadeExactly(registry: Registry, c: Content, documentId: string, artifactId: string, version: int)
    requires c.artifactType in {Quiz, Drill, ExitTicket}
    ensures var stripped := StripItems(FORBIDDEN, c.sections);
            DocumentFrom(registry, c, documentId, artifactId, version).Ok?
            <==> && version >= 1 && SectionsAccepted(registry, c.sections) && SectionsAccepted(registry, stripped)
                 && Cards(stripped) != [] && (forall card <- Cards(stripped) :: ToQuestion(card).Ok?)
                 && !HasKey({"rubric_solution"}, Obj(StripFields(FORBIDDEN, c.metadata)))
  {
    hide ContentOk, SectionsAccepted, ToQuestions, ToQuestion, QuestionOk, Cards, StripItems, StripFields, HasKey;
    ContentOkExactly(registry, c);
    ContentOkExactly(registry, StudentContent(c));
    ToQuestionsExactly(Cards(StripItems(FORBIDDEN, c.sections)));
    StrippedMetadataLeaks(c.metadata);
  }

  // ---- dictionaries

  lemma {:induction false} PutGets(fields: seq<Field>, key: string, value: Value, k: string)
    ensures Get(Put(fields, key, value), k) == if k == key then Some(value) else Get(fields, k)
  {
    if fields == [] {
      assert [Field(key, value)][1..] == [];
    } else if fields[0].key == key {
      assert ([Field(key, value)] + fields[1..])[1..] == fields[1..];
    } else {
      PutGets(fields[1..], key, value, k);
      assert ([fields[0]] + Put(fields[1..], key, value))[1..] == Put(fields[1..], key, value);
    }
  }

  /** The option at `i` is the last with this id. */
  ghost predicate LastOption(options: seq<Choice>, id: string, i: nat) {
    i < |options| && options[i].entityId == id && forall j :: i < j < |options| ==> options[j].entityId != id
  }

  /** Options written to a card are read back by id; of two with one id the later remains. */
  lemma {:induction false} WrittenOptionsExactly(options: seq<Choice>, id: string)
    ensures (forall o <- options :: o.entityId != id) ==> Get(PutAll(options), id) == None
    ensures forall i: nat :: LastOption(options, id, i) ==> Get(PutAll(options), id) == Some(Str(options[i].text))
  {
    hide Put;
    if options != [] {
      var n := |options| - 1;
      WrittenOptionsExactly(options[..n], id);
      PutGets(PutAll(options[..n]), options[n].entityId, Str(options[n].text), id);
      assert options == options[..n] + [options[n]];
      forall i: nat | LastOption(options, id, i)
        ensures Get(PutAll(options), id) == Some(Str(options[i].text))
      {
        assert i < n ==> LastOption(options[..n], id, i);
      }
    }
  }

  /** After the trip the metadata tells the old document's id and version, and else what it told before. */
  lemma RoundMetadataExactly(d: Document, key: string)
    ensures var metadata := DocumentMetadata(d);
            && Get(metadata, "document_id") == Some(Str(d.documentId))
            && Get(metadata, "document_version") == Some(Num(d.version))
            && (key != "document_id" && key != "document_version" ==> Get(metadata, key) == Get(d.metadata, key))
  {
    hide Put, Get;
    assert |"document_id"| == 11 && |"document_version"| == 16;
    var first := Put(d.metadata, "document_id", Str(d.documentId));
    PutGets(d.metadata, "document_id", Str(d.documentId), key);
    PutGets(d.metadata, "document_id", Str(d.documentId), "document_id");
    PutGets(first, "document_version", Num(d.version), key);
    PutGets(first, "document_version", Num(d.version), "document_id");
    PutGets(first, "document_version", Num(d.version), "document_version");
  }

  // ---- block documents

  /** A block section as a rich one. */
  function AsRich(s: BlockSection): RichSection {
    RichSection(s.entityId, s.title, Map((b: Block) => BlockContent(b), s.blocks))
  }

  lemma BlockHasNoTeacherKey(b: Block)
    ensures BlockContent(b).Obj? && !HasKey(TEACHER_ONLY, BlockContent(b))
  {
    var v := BlockContent(b);
    assert "type" !in TEACHER_ONLY && "text" !in TEACHER_ONLY && "level" !in TEACHER_ONLY by {
      assert "type"[1] == 'y' && "text"[1] == 'e' && "level"[0] == 'l';
      assert forall k <- TEACHER_ONLY :: k[0] != 't' && k[0] != 'l';
    }
    match b
    case Heading(text, level) =>
      var a, b, c := Field("type", Str("heading")), Field("text", Str(text)), Field("level", Num(level));
      assert v.fields == [a] + ([b] + ([c] + []));
      NoKeyBefore(a, [b] + ([c] + []));
      NoKeyBefore(b, [c] + []);
      NoKeyBefore(c, []);
    case Paragraph(text) =>
      var a, b := Field("type", Str("paragraph")), Field("text", Str(text));
      assert v.fields == [a] + ([b] + []);
      NoKeyBefore(a, [b] + []);
      NoKeyBefore(b, []);
  }

  lemma NoKeyBefore(f: Field, rest: seq<Field>)
    requires f.key !in TEACHER_ONLY && (f.value.Str? || f.value.Num?)
    ensures AnyFieldHasKey(TEACHER_ONLY, [f] + rest) <==> AnyFieldHasKey(TEACHER_ONLY, rest)
  {
    assert ([f] + rest)[1..] == rest;
  }

  lemma {:induction false} BlocksHaveNoTeacherKey(blocks: seq<Block>)
    ensures !AnyItemHasKey(TEACHER_ONLY, Map((b: Block) => BlockContent(b), blocks))
  {
    if blocks != [] {
      var contents := Map((b: Block) => BlockContent(b), blocks);
      BlockHasNoTeacherKey(blocks[0]);
      BlocksHaveNoTeacherKey(blocks[1..]);
      assert contents[1..] == Map((b: Block) => BlockContent(b), blocks[1..]);
    }
  }

  /**
   A student document of blocks makes the trip through content exactly when the registry accepts its blocks as
   components, and comes back as a rich one with the same sections, in which every block is a component.
   */
  lemma BlocksComeBackRich(registry: Registry, d: Document, documentId: string, artifactId: string, version: int)
    requires DocumentOk(d) && d.audience == Student && d.payload.Blocks? && version >= 1
    ensures var r := RoundTrip(registry, d, documentId, artifactId, version);
            && (r.Ok? <==> forall s <- SectionsOf(d.payload) :: TypedComponentsAccepted(registry, s))
            && (r.Ok? ==>
                  && r.value.payload == Rich(Map((s: BlockSection) => AsRich(s), d.payload.blockSections))
                  && r.value.title == d.title && r.value.theme == d.theme && r.value.language == d.language)
  {
    hide BlockContent, TypedComponentsAccepted, DocumentFrom, HasKey, AnyItemHasKey, Put;
    var sections := d.payload.blockSections;
    var rich := Map((s: BlockSection) => AsRich(s), sections);
    var e := d.(payload := Rich(rich));
    forall s | s in rich
      ensures RichSectionOk(s) && !AnyItemHasKey(TEACHER_ONLY, s.components)
    {
      var i :| 0 <= i < |rich| && rich[i] == s;
      RichFromBlocksOk(sections[i]);
    }
    SameLeaks(d, e);
    assert SectionsOf(e.payload) == SectionsOf(d.payload);
    RichRoundTripsExactly(registry, e, documentId, artifactId, version);
  }

  lemma RichFromBlocksOk(s: BlockSection)
    ensures BlockSectionOk(s) ==> RichSectionOk(AsRich(s))
    ensures !AnyItemHasKey(TEACHER_ONLY, AsRich(s).components)
  {
    BlocksHaveNoTeacherKey(s.blocks);
    forall c | c in AsRich(s).components
      ensures c.Obj?
    {
      var i :| 0 <= i < |s.blocks| && AsRich(s).components[i] == c;
      BlockHasNoTeacherKey(s.blocks[i]);
    }
  }

  lemma SameLeaks(d: Document, e: Document)
    requires d.payload.Blocks? && e.payload.Rich? && e.metadata == d.metadata
    requires forall s <- e.payload.sections :: !AnyItemHasKey(TEACHER_ONLY, s.components)
    ensures Leaks(e) <==> Leaks(d)
  {
    forall s | s in e.payload.sections
      ensures !HasKey(TEACHER_ONLY, Arr(s.components))
    {
    }
  }
}
