/** Teacher-only answers derived from an assessment, and their referential integrity with the student document. */
module AnswerSets {
  import opened Wrappers
  import opened Sequences
  import opened Json
  import opened ArtifactProjection
  import opened ProjectionLaws

  datatype Entry = Entry(entityId: string, questionId: string, correctOptionIds: seq<string>,
                         acceptedAnswers: seq<string>, rationale: Option<string>)

  datatype AnswerSet = AnswerSet(sourceDocumentId: string, sourceVersion: int, entries: seq<Entry>)

  datatype DeriveError = EmptyRationale(questionId: string) | NoAnswers | MissingQuestion(questionId: string)
    | UnknownOption(questionId: string) | BlankAnswer(questionId: string) | NoResponse(questionId: string)

  /** The characters `str.strip` removes. */
  predicate IsSpace(c: char) {
    var n := c as int;
    || 0x09 <= n <= 0x0d || 0x1c <= n <= 0x20 || n == 0x85 || n == 0xa0 || n == 0x1680 || 0x2000 <= n <= 0x200a
    || n == 0x2028 || n == 0x2029 || n == 0x202f || n == 0x205f || n == 0x3000
  }

  predicate Blank(s: string) {
    forall c <- s :: IsSpace(c)
  }

  predicate SelectedResponse(card: Value, answer: string) {
    var options := GetIn(card, "options");
    options.Some? && options.value.Obj? && answer in Keys(options.value.fields)
  }

  /** The answer a card carries, if it has both an id and an answer. */
  function EntryOf(card: Value): Option<Entry> {
    var id, answer, explain := Text(GetIn(card, "id")), Text(GetIn(card, "answer")), GetIn(card, "explain");
    if id == None || answer == None then None
    else
      var selected := SelectedResponse(card, answer.value);
      Some(Entry("answer-" + id.value, id.value, if selected then [answer.value] else [],
                 if selected then [] else [answer.value],
                 if explain.Some? && explain.value.Str? then Some(explain.value.s) else None))
  }

  /** The entries of the cards; an empty rationale violates the entry's field constraint. */
  function EntriesOf(cards: seq<Value>): Result<seq<Entry>, DeriveError> {
    if cards == [] then Ok([])
    else
      var before, last := EntriesOf(cards[..|cards| - 1]), EntryOf(cards[|cards| - 1]);
      if before.Err? || last == None then before
      else if last.value.rationale == Some("") then Err(EmptyRationale(last.value.questionId))
      else Ok(before.value + [last.value])
  }

  /** `answers_by_question`: one entry a question, in order of first occurrence, the last one winning. */
  function ByQuestion(entries: seq<Entry>): seq<Entry> {
    if entries == [] then []
    else PutEntry(ByQuestion(entries[..|entries| - 1]), entries[|entries| - 1])
  }

  function PutEntry(entries: seq<Entry>, e: Entry): seq<Entry> {
    if entries == [] then [e]
    else if entries[0].questionId == e.questionId then [e] + entries[1..]
    else [entries[0]] + PutEntry(entries[1..], e)
  }

  /** The cards by question id, the last one winning. */
  function QuestionMap(cards: seq<Value>): map<string, Value> {
    if cards == [] then map[]
    else
      var before, id := QuestionMap(cards[..|cards| - 1]), GetIn(cards[|cards| - 1], "id");
      if id.Some? && id.value.Str? then before[id.value.s := cards[|cards| - 1]] else before
  }

  function EntryError(questions: map<string, Value>, e: Entry): Option<DeriveError> {
    if e.questionId !in questions then Some(MissingQuestion(e.questionId))
    else if e.correctOptionIds != []
            && exists id <- e.correctOptionIds :: !SelectedResponse(questions[e.questionId], id)
    then Some(UnknownOption(e.questionId))
    else if exists answer <- e.acceptedAnswers :: Blank(answer) then Some(BlankAnswer(e.questionId))
    else if e.correctOptionIds == [] && e.acceptedAnswers == [] then Some(NoResponse(e.questionId))
    else None
  }

  function FirstError(questions: map<string, Value>, entries: seq<Entry>): Option<DeriveError> {
    if entries == [] then None
    else
      var error := EntryError(questions, entries[0]);
      if error.Some? then error else FirstError(questions, entries[1..])
  }

  function Verify(sections: seq<Value>, s: AnswerSet): Option<DeriveError> {
    FirstError(QuestionMap(Cards(sections)), ByQuestion(s.entries))
  }

  function Derive(sections: seq<Value>, sourceDocumentId: string, sourceVersion: int): Result<AnswerSet, DeriveError> {
    var entries := EntriesOf(Cards(sections));
    if entries.Err? then Err(entries.error)
    else if entries.value == [] then Err(NoAnswers)
    else
      var s := AnswerSet(sourceDocumentId, sourceVersion, entries.value);
      var error := Verify(sections, s);
      if error.Some? then Err(error.value) else Ok(s)
  }

  // ---- the loops

  lemma {:induction false} EntriesPrefix(a: seq<Value>, b: seq<Value>)
    requires EntriesOf(a).Err?
    ensures EntriesOf(a + b) == EntriesOf(a)
  {
    if b == [] {
      assert a + b == a;
    } else {
      EntriesPrefix(a, b[..|b| - 1]);
      assert (a + b)[..|a + b| - 1] == a + b[..|b| - 1];
    }
  }

  method AddEntries(components: seq<Value>, entries0: seq<Entry>, ghost cards: seq<Value>)
    returns (r: Result<seq<Entry>, DeriveError>)
    requires EntriesOf(cards) == Ok(entries0)
    ensures r == EntriesOf(cards + QuestionCards(components))
  {
    var entries := entries0;
    ghost var done := cards;
    for j := 0 to |components|
      invariant done == cards + QuestionCards(components[..j]) && EntriesOf(done) == Ok(entries)
    {
      OneMoreComponent(cards, components, j);
      if IsCard(components[j]) {
        done := done + [components[j]];
        var entry := EntryOf(components[j]);
        if entry.Some? {
          if entry.value.rationale == Some("") {
            EntriesPrefix(done, QuestionCards(components[j + 1..]));
            return Err(EmptyRationale(entry.value.questionId));
          }
          entries := entries + [entry.value];
        }
      }
    }
    assert components[..|components|] == components;
    r := Ok(entries);
  }

  /** `derive_answer_set`. */
  method DeriveAnswerSet(sections: seq<Value>, sourceDocumentId: string, sourceVersion: int)
    returns (r: Result<AnswerSet, DeriveError>)
    ensures r == Derive(sections, sourceDocumentId, sourceVersion)
  {
    var entries: seq<Entry> := [];
    for i := 0 to |sections|
      invariant EntriesOf(Cards(sections[..i])) == Ok(entries)
    {
      CardsStep(sections, i);
      var added := AddEntries(Components(sections[i]), entries, Cards(sections[..i]));
      if added.Err? {
        ghost var rest := CardsSplit(sections, i + 1);
        EntriesPrefix(Cards(sections[..i + 1]), rest);
        return Err(added.error);
      }
      entries := added.value;
    }
    assert sections[..|sections|] == sections;
    if entries == [] {
      return Err(NoAnswers);
    }
    var s := AnswerSet(sourceDocumentId, sourceVersion, entries);
    var error := VerifyAnswerSet(sections, s);
    r := if error.Some? then Err(error.value) else Ok(s);
  }

  method AddQuestionsById(components: seq<Value>, questions0: map<string, Value>, ghost cards: seq<Value>)
    returns (questions: map<string, Value>)
    requires questions0 == QuestionMap(cards)
    ensures questions == QuestionMap(cards + QuestionCards(components))
  {
    questions := questions0;
    ghost var done := cards;
    for j := 0 to |components|
      invariant done == cards + QuestionCards(components[..j]) && questions == QuestionMap(done)
    {
      OneMoreComponent(cards, components, j);
      if IsCard(components[j]) {
        ghost var next := done + [components[j]];
        assert next[..|next| - 1] == done;
        done := next;
        var id := GetIn(components[j], "id");
        if id.Some? && id.value.Str? {
          questions := questions[id.value.s := components[j]];
        }
      }
    }
    assert components[..|components|] == components;
  }

  /** `verify_answer_set`; `None` where the source does not raise. */
  method VerifyAnswerSet(sections: seq<Value>, s: AnswerSet) returns (error: Option<DeriveError>)
    ensures error == Verify(sections, s)
  {
    var questions: map<string, Value> := map[];
    for i := 0 to |sections|
      invariant questions == QuestionMap(Cards(sections[..i]))
    {
      CardsStep(sections, i);
      questions := AddQuestionsById(Components(sections[i]), questions, Cards(sections[..i]));
    }
    assert sections[..|sections|] == sections;
    var answers := ByQuestion(s.entries);
    for i := 0 to |answers|
      invariant FirstError(questions, answers[i..]) == FirstError(questions, answers)
    {
      assert answers[i..][0] == answers[i] && answers[i..][1..] == answers[i + 1..];
      error := EntryError(questions, answers[i]);
      if error.Some? {
        return;
      }
    }
    error := None;
  }

  // ---- when derivation succeeds

  function StringId(card: Value): Option<string> {
    var id := GetIn(card, "id");
    if id.Some? && id.value.Str? then Some(id.value.s) else None
  }

  /** No two cards have the same string as their id. */
  ghost predicate UniqueQuestionIds(cards: seq<Value>) {
    forall i, j :: 0 <= i < j < |cards| && StringId(cards[i]).Some? ==> StringId(cards[i]) != StringId(cards[j])
  }

  ghost predicate ComesFrom(e: Entry, cards: seq<Value>, i: nat) {
    i < |cards| && EntryOf(cards[i]) == Some(e)
  }

  ghost predicate Comes(e: Entry, cards: seq<Value>) {
    exists i: nat :: ComesFrom(e, cards, i)
  }

  lemma {:induction false} EntriesComeFromCards(cards: seq<Value>)
    requires EntriesOf(cards).Ok?
    ensures forall e <- EntriesOf(cards).value :: Comes(e, cards)
  {
    if cards != [] {
      var init, n := cards[..|cards| - 1], |cards| - 1;
      EntriesComeFromCards(init);
      forall e | e in EntriesOf(cards).value
        ensures Comes(e, cards)
      {
        if e in EntriesOf(init).value {
          var i: nat :| ComesFrom(e, init, i);
          assert ComesFrom(e, cards, i);
        } else {
          assert ComesFrom(e, cards, n);
        }
      }
    }
  }

  function QuestionIds(entries: seq<Entry>): seq<string> {
    Map((e: Entry) => e.questionId, entries)
  }

  lemma {:induction false} EntriesAreDistinct(cards: seq<Value>)
    requires EntriesOf(cards).Ok? && UniqueQuestionIds(cards)
    ensures Distinct(QuestionIds(EntriesOf(cards).value))
  {
    if cards != [] {
      var init, n := cards[..|cards| - 1], |cards| - 1;
      EntriesAreDistinct(init);
      var entries, last := EntriesOf(init).value, EntryOf(cards[n]);
      if last.Some? {
        EntriesComeFromCards(init);
        forall i | 0 <= i < |entries|
          ensures entries[i].questionId != last.value.questionId
        {
          var e := entries[i];
          assert e in entries;
          var k: nat :| ComesFrom(e, init, k);
          assert StringId(cards[k]) == Some(e.questionId) && StringId(cards[n]) == Some(last.value.questionId);
        }
        DistinctSnoc(QuestionIds(entries), last.value.questionId);
        assert QuestionIds(entries + [last.value]) == QuestionIds(entries) + [last.value.questionId];
      }
    }
  }

  lemma {:induction false} DistinctStaysInOrder(entries: seq<Entry>)
    requires Distinct(QuestionIds(entries))
    ensures ByQuestion(entries) == entries
  {
    if entries != [] {
      var init, last := entries[..|entries| - 1], entries[|entries| - 1];
      var ids := QuestionIds(entries);
      forall i, j | 0 <= i < j < |init|
        ensures init[i].questionId != init[j].questionId
      {
        assert ids[i] != ids[j];
      }
      DistinctStaysInOrder(init);
      forall i | 0 <= i < |init|
        ensures init[i].questionId != last.questionId
      {
        assert ids[i] != ids[|init|];
      }
      PutNew(init, last);
      assert entries == init + [last];
    }
  }

  lemma {:induction false} PutNew(entries: seq<Entry>, e: Entry)
    requires forall i :: 0 <= i < |entries| ==> entries[i].questionId != e.questionId
    ensures PutEntry(entries, e) == entries + [e]
  {
    if entries != [] {
      PutNew(entries[1..], e);
    }
  }

  lemma {:induction false} UniqueCardIsFound(cards: seq<Value>, i: nat)
    requires UniqueQuestionIds(cards) && i < |cards| && StringId(cards[i]).Some?
    ensures StringId(cards[i]).value in QuestionMap(cards) && QuestionMap(cards)[StringId(cards[i]).value] == cards[i]
  {
    var n := |cards| - 1;
    if i < n {
      UniqueCardIsFound(cards[..n], i);
      assert StringId(cards[i]) != StringId(cards[n]);
    }
  }

  /** With unique ids an entry made from a card can only be objected to for a blank answer. */
  lemma DerivedEntryError(cards: seq<Value>, e: Entry)
    requires UniqueQuestionIds(cards) && Comes(e, cards)
    ensures EntryError(QuestionMap(cards), e) ==
      if exists answer <- e.acceptedAnswers :: Blank(answer) then Some(BlankAnswer(e.questionId)) else None
  {
    var i: nat :| ComesFrom(e, cards, i);
    UniqueCardIsFound(cards, i);
  }

  ghost predicate HasBlank(e: Entry) {
    exists answer <- e.acceptedAnswers :: Blank(answer)
  }

  lemma {:induction false} FirstBlank(questions: map<string, Value>, entries: seq<Entry>)
    requires forall e <- entries ::
      EntryError(questions, e) == if HasBlank(e) then Some(BlankAnswer(e.questionId)) else None
    ensures FirstError(questions, entries) == None <==> forall e <- entries :: !HasBlank(e)
    ensures FirstError(questions, entries).Some? ==> FirstError(questions, entries).value.BlankAnswer?
  {
    if entries != [] {
      FirstBlank(questions, entries[1..]);
      assert entries == [entries[0]] + entries[1..];
      assert entries[0] in entries && forall e <- entries[1..] :: e in entries;
    }
  }

  /**
   With unique question ids, no empty rationale and at least one answer, derivation succeeds exactly when no
   free-text answer is blank, and otherwise fails verification for that reason.
   */
  lemma DerivationFailsExactly(sections: seq<Value>, sourceDocumentId: string, sourceVersion: int)
    requires UniqueQuestionIds(Cards(sections))
    requires EntriesOf(Cards(sections)).Ok? && EntriesOf(Cards(sections)).value != []
    ensures var r, entries := Derive(sections, sourceDocumentId, sourceVersion), EntriesOf(Cards(sections)).value;
            && (r.Ok? <==> forall e <- entries :: !HasBlank(e))
            && (r.Ok? ==> r.value.entries == entries)
            && (r.Err? ==> r.error.BlankAnswer?)
  {
    var cards, entries := Cards(sections), EntriesOf(Cards(sections)).value;
    EntriesComeFromCards(cards);
    EntriesAreDistinct(cards);
    DistinctStaysInOrder(entries);
    forall e | e in entries
      ensures EntryError(QuestionMap(cards), e) == if HasBlank(e) then Some(BlankAnswer(e.questionId)) else None
    {
      DerivedEntryError(cards, e);
    }
    FirstBlank(QuestionMap(cards), entries);
  }

  // ---- referential integrity with the student document

  lemma {:induction false} FilterStripped(components: seq<Value>)
    ensures QuestionCards(StripItems(FORBIDDEN, components)) == StripItems(FORBIDDEN, QuestionCards(components))
  {
    if components != [] {
      FilterStripped(components[1..]);
      StrippedCardIsCard(components[0]);
      var s := StripItems(FORBIDDEN, components);
      assert s[0] == StudentValue(components[0]) && s[1..] == StripItems(FORBIDDEN, components[1..]);
      if IsCard(components[0]) {
        assert ([components[0]] + QuestionCards(components[1..]))[1..] == QuestionCards(components[1..]);
      } else {
        assert QuestionCards(components) == QuestionCards(components[1..]);
      }
    }
  }

  lemma StrippedCardIsCard(card: Value)
    ensures IsCard(StudentValue(card)) <==> IsCard(card)
  {
    if card.Obj? {
      GetStripped(FORBIDDEN, card.fields, "type");
    }
  }

  lemma StrippedComponents(section: Value)
    ensures Components(StudentValue(section)) == StripItems(FORBIDDEN, Components(section))
  {
    if section.Obj? {
      GetStripped(FORBIDDEN, section.fields, "components");
    }
  }

  lemma {:induction false} StripItemsAppend(a: seq<Value>, b: seq<Value>)
    ensures StripItems(FORBIDDEN, a + b) == StripItems(FORBIDDEN, a) + StripItems(FORBIDDEN, b)
  {
    if a == [] {
      assert a + b == b;
    } else {
      StripItemsAppend(a[1..], b);
      assert (a + b)[1..] == a[1..] + b;
    }
  }

  /** Stripping an assessment strips its question cards and keeps them in place. */
  lemma {:induction false} StripCommutesWithCards(sections: seq<Value>)
    ensures Cards(StripItems(FORBIDDEN, sections)) == StripItems(FORBIDDEN, Cards(sections))
  {
    if sections != [] {
      var init, last := sections[..|sections| - 1], sections[|sections| - 1];
      StripCommutesWithCards(init);
      assert sections == init + [last];
      StripItemsAppend(init, [last]);
      assert StripItems(FORBIDDEN, [last]) == [StudentValue(last)];
      var s := StripItems(FORBIDDEN, sections);
      assert s[..|s| - 1] == StripItems(FORBIDDEN, init);
      StrippedComponents(last);
      FilterStripped(Components(last));
      StripItemsAppend(Cards(init), QuestionCards(Components(last)));
    }
  }

  lemma {:induction false} QuestionAt(cards: seq<Value>, i: nat)
    requires ToQuestions(cards).Ok? && i < |cards|
    ensures |ToQuestions(cards).value| == |cards| && ToQuestion(cards[i]) == Ok(ToQuestions(cards).value[i])
  {
    var n := |cards| - 1;
    if n > 0 {
      QuestionAt(cards[..n], if i < n then i else 0);
    }
  }

  /** A stripped card becomes the question with the card's id and all options but the stripped keys. */
  lemma StrippedQuestion(card: Value, e: Entry)
    requires EntryOf(card) == Some(e) && ToQuestion(StudentValue(card)).Ok?
    ensures var q := ToQuestion(StudentValue(card)).value;
            && q.entityId == e.questionId
            && forall id <- e.correctOptionIds :: id in OptionIds(q.options) <==> id !in FORBIDDEN
  {
    GetStripped(FORBIDDEN, card.fields, "id");
    GetStripped(FORBIDDEN, card.fields, "options");
    var options := Get(card.fields, "options");
    if e.correctOptionIds != [] {
      var fields := options.value.fields;
      var q := ToQuestion(StudentValue(card)).value;
      StripKeepsOrder(FORBIDDEN, fields);
      FilterMembers((k: string) => k !in FORBIDDEN, Keys(fields));
      assert OptionIds(q.options) == Keys(StripFields(FORBIDDEN, fields));
    }
  }

  /** The question is in the document and offers all the entry's correct options. */
  ghost predicate Resolves(e: Entry, questions: seq<Question>) {
    exists q :: q in questions && q.entityId == e.questionId
                && forall id :: id in e.correctOptionIds ==> id in OptionIds(q.options)
  }

  lemma EntryResolvesExactly(cards: seq<Value>, questions: seq<Question>, e: Entry)
    requires Comes(e, cards) && ToQuestions(StripItems(FORBIDDEN, cards)) == Ok(questions)
    ensures exists q :: q in questions && q.entityId == e.questionId
    ensures Resolves(e, questions) <==> Elements(e.correctOptionIds) !! FORBIDDEN
  {
    var i: nat :| ComesFrom(e, cards, i);
    QuestionAt(StripItems(FORBIDDEN, cards), i);
    StripItemAt(FORBIDDEN, cards, i);
    StrippedQuestion(cards[i], e);
    var q := questions[i];
    assert q in questions;
    if id :| id in e.correctOptionIds && id in FORBIDDEN {
      forall q | q in questions
        ensures id !in OptionIds(q.options)
      {
        var j :| 0 <= j < |questions| && questions[j] == q;
        QuestionAt(StripItems(FORBIDDEN, cards), j);
        StripItemAt(FORBIDDEN, cards, j);
        ForbiddenNeverOffered(cards[j], id);
      }
    }
  }

  lemma ForbiddenNeverOffered(card: Value, id: string)
    requires ToQuestion(StudentValue(card)).Ok? && id in FORBIDDEN
    ensures id !in OptionIds(ToQuestion(StudentValue(card)).value.options)
  {
    GetStripped(FORBIDDEN, card.fields, "options");
    var fields := Get(card.fields, "options").value.fields;
    StripKeepsOrder(FORBIDDEN, fields);
    FilterMembers((k: string) => k !in FORBIDDEN, Keys(fields));
    assert OptionIds(ToQuestion(StudentValue(card)).value.options) == Keys(StripFields(FORBIDDEN, fields));
  }

  /**
   When both the answer set and the student document can be made from one assessment, every answer names a question
   of the document, and every correct option is offered there exactly when no correct option id is a stripped key.
   */
  lemma IntegritySurvivesProjectionExactly(registry: Registry, c: Content, documentId: string, artifactId: string,
                                           version: int, sourceDocumentId: string, sourceVersion: int)
    requires IsAssessment(c.artifactType)
    requires Derive(c.sections, sourceDocumentId, sourceVersion).Ok?
    requires DocumentFrom(registry, c, documentId, artifactId, version).Ok?
    ensures var entries := Derive(c.sections, sourceDocumentId, sourceVersion).value.entries;
            var d := DocumentFrom(registry, c, documentId, artifactId, version).value;
            && d.audience == Student && d.payload.Assessment?
            && (forall e <- entries :: exists q :: q in d.payload.questions && q.entityId == e.questionId)
            && ((forall e <- entries :: Resolves(e, d.payload.questions))
                <==> forall e <- entries :: Elements(e.correctOptionIds) !! FORBIDDEN)
  {
    var cards := Cards(c.sections);
    var entries := Derive(c.sections, sourceDocumentId, sourceVersion).value.entries;
    assert EntriesOf(cards) == Ok(entries);
    var questions := StudentQuestions(registry, c, documentId, artifactId, version);
    EntriesResolveExactly(cards, questions, entries);
  }

  // ---- an option named like a stripped key

  function TrapOptions(): seq<Field> {
    [Field("answer", Str("Forty-two")), Field("B", Str("Forty-three"))]
  }

  /** A card whose correct option is named "answer". */
  function TrapCard(): Value {
    Obj([Field("type", Str("question_card")), Field("id", Str("q1")), Field("text", Str("What is six times seven?")),
         Field("options", Obj(TrapOptions())), Field("answer", Str("answer"))])
  }

  function TrapContent(): Content {
    Content(Quiz, "default", "Quiz", [Obj([Field("components", Arr([TrapCard()]))])], [], [])
  }

  lemma TrapFields()
    ensures var card := TrapCard();
            && GetIn(card, "type") == Some(Str("question_card")) && GetIn(card, "id") == Some(Str("q1"))
            && GetIn(card, "options") == Some(Obj(TrapOptions())) && GetIn(card, "answer") == Some(Str("answer"))
            && GetIn(card, "explain") == None && Keys(TrapOptions()) == ["answer", "B"]
    ensures StudentValue(TrapCard()) == CardOf("q1", "What is six times seven?", [Field("B", Str("Forty-three"))])
  {
    hide TrapOptions;
    var a, b := Field("type", Str("question_card")), Field("id", Str("q1"));
    var c, d := Field("text", Str("What is six times seven?")), Field("options", Obj(TrapOptions()));
    var e := Field("answer", Str("answer"));
    assert TrapCard().fields == [a] + ([b] + ([c] + ([d] + ([e] + []))));
    assert "type"[0] == 't' && "id"[0] == 'i' && "text"[1] == 'e' && "options"[0] == 'o' && "answer"[0] == 'a';
    forall key
      ensures Get(TrapCard().fields, key) ==
        if key == "type" then Some(a.value) else if key == "id" then Some(b.value)
        else if key == "text" then Some(c.value)
        else if key == "options" then Some(d.value) else if key == "answer" then Some(e.value) else None
    {
      GetCons(e, [], key);
      GetCons(d, [e] + [], key);
      GetCons(c, [d] + ([e] + []), key);
      GetCons(b, [c] + ([d] + ([e] + [])), key);
      GetCons(a, [b] + ([c] + ([d] + ([e] + []))), key);
    }
    TrapOptionFields();
    TrapStripped();
  }

  lemma TrapOptionFields()
    ensures Keys(TrapOptions()) == ["answer", "B"]
    ensures StripFields(FORBIDDEN, TrapOptions()) == [Field("B", Str("Forty-three"))]
  {
    assert TrapOptions()[1..] == [Field("B", Str("Forty-three"))] && TrapOptions()[1..][1..] == [];
    assert StripFields(FORBIDDEN, TrapOptions()[1..]) == [Field("B", Str("Forty-three"))];
  }

  lemma TrapStripped()
    ensures StudentValue(TrapCard()) == CardOf("q1", "What is six times seven?", [Field("B", Str("Forty-three"))])
  {
    hide TrapOptions;
    var card := CardOf("q1", "What is six times seven?", TrapOptions());
    var last := Field("answer", Str("answer"));
    assert TrapCard().fields == card.fields + [last];
    StripAppend(FORBIDDEN, card.fields, last);
    StripCard("q1", "What is six times seven?", TrapOptions());
    TrapOptionFields();
  }

  lemma {:induction false} StripAppend(forbidden: set<string>, fields: seq<Field>, last: Field)
    requires last.key in forbidden
    ensures StripFields(forbidden, fields + [last]) == StripFields(forbidden, fields)
  {
    if fields == [] {
      assert (fields + [last])[1..] == [];
    } else {
      assert (fields + [last])[1..] == fields[1..] + [last];
      StripAppend(forbidden, fields[1..], last);
    }
  }

  lemma TrapSection()
    ensures Cards(TrapContent().sections) == [TrapCard()]
  {
    TrapFields();
    var sections := TrapContent().sections;
    assert Cards(sections[..0]) == [] && Components(sections[0]) == [TrapCard()];
    assert QuestionCards([TrapCard()]) == [TrapCard()] by {
      FilterAll((v: Value) => IsCard(v), [TrapCard()]);
    }
  }

  /** The answer set of the card refers to an option that the student document does not offer. */
  lemma TrapAnswerIsLost(registry: Registry)
    requires registry.accepts(TrapCard()) && registry.accepts(StudentValue(TrapCard()))
    ensures var answers := Derive(TrapContent().sections, "doc", 1);
            var document := DocumentFrom(registry, TrapContent(), "doc", "a", 1);
            && answers.Ok? && document.Ok? && document.value.payload.Assessment?
            && exists e <- answers.value.entries :: !Resolves(e, document.value.payload.questions)
  {
    TrapDerives();
    TrapDocument(registry);
    IntegritySurvivesProjectionExactly(registry, TrapContent(), "doc", "a", 1, "doc", 1);
    var e := TrapEntry();
    assert "answer" in e.correctOptionIds && "answer" in FORBIDDEN;
    assert "answer" in Elements(e.correctOptionIds);
    assert e in [e];
  }

  function TrapEntry(): Entry {
    Entry("answer-" + "q1", "q1", ["answer"], [], None)
  }

  lemma TrapDerives()
    ensures Derive(TrapContent().sections, "doc", 1) == Ok(AnswerSet("doc", 1, [TrapEntry()]))
  {
    TrapSection();
    TrapFields();
    var card, e := TrapCard(), TrapEntry();
    assert EntryOf(card) == Some(e);
    OneCard(card, e);
    OneEntry(e);
    assert SelectedResponse(card, "answer");
    assert EntryError(QuestionMap([card]), e) == None;
    assert [e][1..] == [] && FirstError(QuestionMap([card]), [e]) == None;
  }

  lemma OneCard(card: Value, e: Entry)
    requires EntryOf(card) == Some(e) && e.rationale == None && GetIn(card, "id") == Some(Str(e.questionId))
    ensures EntriesOf([card]) == Ok([e]) && QuestionMap([card]) == map[e.questionId := card]
  {
    var cards := [card];
    assert cards[..|cards| - 1] == [] && EntriesOf(cards[..|cards| - 1]) == Ok([]);
    assert EntriesOf(cards) == Ok([] + [e]) && [] + [e] == [e];
    assert QuestionMap(cards[..|cards| - 1]) == map[];
    assert QuestionMap(cards) == QuestionMap(cards[..|cards| - 1])[e.questionId := card];
  }

  lemma OneEntry(e: Entry)
    ensures ByQuestion([e]) == [e]
  {
    assert [e][..0] == [];
    assert ByQuestion([e][..0]) == [];
  }

  lemma TrapPayload()
    ensures AssessmentPayload(StripItems(FORBIDDEN, TrapContent().sections))
         == Ok(Assessment([Question("q1", "What is six times seven?", [Choice("B", "Forty-three")])]))
  {
    hide TrapCard, TrapOptions, CardOf;
    TrapFields();
    TrapSection();
    StripCommutesWithCards(TrapContent().sections);
    var stripped, options := StudentValue(TrapCard()), [Field("B", Str("Forty-three"))];
    CardFields("q1", "What is six times seven?", options);
    assert [TrapCard()][1..] == [] && StripItems(FORBIDDEN, [TrapCard()]) == [stripped];
    var q := Question("q1", "What is six times seven?", [Choice("B", "Forty-three")]);
    assert Choices(options) == q.options;
    QuestionsPointwise([stripped], [q]);
  }

  lemma TrapContentOk(registry: Registry)
    requires registry.accepts(TrapCard()) && registry.accepts(StudentValue(TrapCard()))
    ensures ContentOk(registry, TrapContent()) && ContentOk(registry, StudentContent(TrapContent()))
  {
    hide TrapCard, TrapOptions, CardOf, TypedComponentsAccepted, StudentValue;
    var sections, card := TrapContent().sections, TrapCard();
    TrapCardTypes();
    OneCardStripped(card);
    StripItemAt(FORBIDDEN, sections, 0);
    OneSectionOk(registry, sections, [card]);
    OneSectionOk(registry, StripItems(FORBIDDEN, sections), [StudentValue(card)]);
  }

  lemma TrapCardTypes()
    ensures GetIn(TrapCard(), "type").Some? && GetIn(StudentValue(TrapCard()), "type").Some?
  {
    TrapFields();
    CardFields("q1", "What is six times seven?", [Field("B", Str("Forty-three"))]);
  }

  lemma OneCardStripped(card: Value)
    ensures var section := Obj([Field("components", Arr([card]))]);
            var after := Strip(FORBIDDEN, section);
            && GetIn(section, "components") == Some(Arr([card]))
            && after.Obj? && GetIn(after, "components") == Some(Arr([StudentValue(card)]))
  {
    var fields := [Field("components", Arr([card]))];
    assert Get(fields, "components") == Some(Arr([card]));
    assert "components"[2] == 'm' && "correct_option_ids"[2] == 'r';
    GetStripped(FORBIDDEN, fields, "components");
    assert [card][1..] == [] && StripItems(FORBIDDEN, [card]) == [StudentValue(card)];
  }

  lemma TrapDocument(registry: Registry)
    requires registry.accepts(TrapCard()) && registry.accepts(StudentValue(TrapCard()))
    ensures DocumentFrom(registry, TrapContent(), "doc", "a", 1).Ok?
  {
    hide ContentOk, StripItems, AssessmentPayload, TrapCard, Strip;
    TrapPayload();
    TrapContentOk(registry);
  }

  /** The questions of the student document are read off the stripped cards. */
  lemma StudentQuestions(registry: Registry, c: Content, documentId: string, artifactId: string, version: int)
    returns (questions: seq<Question>)
    requires IsAssessment(c.artifactType) && DocumentFrom(registry, c, documentId, artifactId, version).Ok?
    ensures var d := DocumentFrom(registry, c, documentId, artifactId, version).value;
            d.audience == Student && d.payload == Assessment(questions)
    ensures ToQuestions(StripItems(FORBIDDEN, Cards(c.sections))) == Ok(questions)
  {
    hide ContentOk, DocumentOk, ToQuestions, Strip, StripItems, StripFields, Cards;
    questions := DocumentFrom(registry, c, documentId, artifactId, version).value.payload.questions;
    StripCommutesWithCards(c.sections);
  }

  lemma EntriesResolveExactly(cards: seq<Value>, questions: seq<Question>, entries: seq<Entry>)
    requires EntriesOf(cards) == Ok(entries) && ToQuestions(StripItems(FORBIDDEN, cards)) == Ok(questions)
    ensures forall e <- entries :: exists q :: q in questions && q.entityId == e.questionId
    ensures (forall e <- entries :: Resolves(e, questions))
       <==> forall e <- entries :: Elements(e.correctOptionIds) !! FORBIDDEN
  {
    EntriesComeFromCards(cards);
    forall e | e in entries
      ensures exists q :: q in questions && q.entityId == e.questionId
      ensures Resolves(e, questions) <==> Elements(e.correctOptionIds) !! FORBIDDEN
    {
      EntryResolvesExactly(cards, questions, e);
    }
  }

  /** Unique question ids in the assessment stay unique in the student document, so an answer names one question. */
  lemma DocumentQuestionsUnique(registry: Registry, c: Content, documentId: string, artifactId: string, version: int)
    requires IsAssessment(c.artifactType) && UniqueQuestionIds(Cards(c.sections))
    requires DocumentFrom(registry, c, documentId, artifactId, version).Ok?
    ensures var questions := DocumentFrom(registry, c, documentId, artifactId, version).value.payload.questions;
            forall i, j :: 0 <= i < j < |questions| ==> questions[i].entityId != questions[j].entityId
  {
    var questions := StudentQuestions(registry, c, documentId, artifactId, version);
    QuestionsUnique(Cards(c.sections), questions);
  }

  lemma QuestionsUnique(cards: seq<Value>, questions: seq<Question>)
    requires UniqueQuestionIds(cards) && ToQuestions(StripItems(FORBIDDEN, cards)) == Ok(questions)
    ensures forall i, j :: 0 <= i < j < |questions| ==> questions[i].entityId != questions[j].entityId
  {
    if cards != [] {
      QuestionAt(StripItems(FORBIDDEN, cards), 0);
    }
    forall i | 0 <= i < |questions|
      ensures |questions| == |cards| && StringId(cards[i]) == Some(questions[i].entityId)
    {
      QuestionAt(StripItems(FORBIDDEN, cards), i);
      StripItemAt(FORBIDDEN, cards, i);
      StrippedId(cards[i]);
    }
    forall i, j | 0 <= i < j < |questions|
      ensures questions[i].entityId != questions[j].entityId
    {
      assert StringId(cards[i]) == Some(questions[i].entityId) && StringId(cards[j]) == Some(questions[j].entityId);
    }
  }

  lemma StrippedId(card: Value)
    requires ToQuestion(StudentValue(card)).Ok?
    ensures StringId(card) == Some(ToQuestion(StudentValue(card)).value.entityId)
  {
    GetStripped(FORBIDDEN, card.fields, "id");
  }
}
