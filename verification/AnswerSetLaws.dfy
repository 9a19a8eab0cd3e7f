/** What answers say about the cards they come from, and which answer sets verification lets pass. */
module AnswerSetLaws {
  import opened Wrappers
  import opened Sequences
  import opened Json
  import opened ArtifactProjection
  import opened DocumentLaws
  import opened AnswerSets
  import opened AnswerKeys

  // ---- entries

  /** The answer is the name of one of the card's options. */
  ghost predicate NamesOption(card: Value, answer: string) {
    var options := GetIn(card, "options");
    options.Some? && options.value.Obj? && exists f :: f in options.value.fields && f.key == answer
  }

  lemma SelectedExactly(card: Value, answer: string)
    ensures SelectedResponse(card, answer) <==> NamesOption(card, answer)
  {
    var options := GetIn(card, "options");
    if options.Some? && options.value.Obj? {
      var fields := options.value.fields;
      if f :| f in fields && f.key == answer {
        var i :| 0 <= i < |fields| && fields[i] == f;
        assert Keys(fields)[i] == answer;
      }
      if answer in Keys(fields) {
        var i :| 0 <= i < |fields| && Keys(fields)[i] == answer;
        assert fields[i] in fields;
      }
    }
  }

  /**
   A card bears an answer when it has an id and an answer that are not empty. The answer is the correct option if the
   card has one of that name, and free text otherwise; the explanation, if a string, is the rationale.
   */
  lemma EntryExactly(card: Value)
    ensures var e, explain := EntryOf(card), GetIn(card, "explain");
            && (e.Some? <==> (exists id :: Says(GetIn(card, "id"), id))
                             && exists answer :: Says(GetIn(card, "answer"), answer))
            && (e.Some? ==>
                  && Says(GetIn(card, "id"), e.value.questionId) && e.value.entityId == "answer-" + e.value.questionId
                  && (exists answer :: Says(GetIn(card, "answer"), answer) && Answers(card, e.value, answer))
                  && (forall s :: explain == Some(Str(s)) ==> e.value.rationale == Some(s))
                  && (explain.None? || !explain.value.Str? ==> e.value.rationale == None))
  {
    TextExactly(GetIn(card, "id"));
    TextExactly(GetIn(card, "answer"));
    var answer := Text(GetIn(card, "answer"));
    if EntryOf(card).Some? {
      SelectedExactly(card, answer.value);
      assert Says(GetIn(card, "answer"), answer.value) && Answers(card, EntryOf(card).value, answer.value);
    }
  }

  /** The entry gives this answer, as an option or as free text. */
  ghost predicate Answers(card: Value, e: Entry, answer: string) {
    && (NamesOption(card, answer) ==> e.correctOptionIds == [answer] && e.acceptedAnswers == [])
    && (!NamesOption(card, answer) ==> e.correctOptionIds == [] && e.acceptedAnswers == [answer])
  }

  /** The entries are those of the cards that bear an answer, all of them, in order. */
  lemma {:induction false} EntriesExactly(cards: seq<Value>)
    requires EntriesOf(cards).Ok?
    ensures Map((e: Entry) => Some(e), EntriesOf(cards).value)
         == Filter((e: Option<Entry>) => e.Some?, Map((card: Value) => EntryOf(card), cards))
  {
    hide EntryOf;
    if cards != [] {
      var init, last := cards[..|cards| - 1], cards[|cards| - 1];
      EntriesExactly(init);
      var all := Map((card: Value) => EntryOf(card), init);
      assert Map((card: Value) => EntryOf(card), cards) == all + [EntryOf(last)];
      FilterAppend((e: Option<Entry>) => e.Some?, all, EntryOf(last));
    }
  }

  /** The entries cannot be made exactly when a card that bears an answer has an empty explanation. */
  lemma {:induction false} EntriesFailExactly(cards: seq<Value>)
    ensures EntriesOf(cards).Err?
       <==> exists card :: card in cards && EntryOf(card).Some? && GetIn(card, "explain") == Some(Str(""))
  {
    if cards != [] {
      var init, last := cards[..|cards| - 1], cards[|cards| - 1];
      EntriesFailExactly(init);
      assert cards == init + [last];
      assert last in cards;
    }
  }

  // ---- verification

  /** The entry at `i` is the last for its question. */
  ghost predicate LastForQuestion(entries: seq<Entry>, i: nat) {
    i < |entries| && forall j :: i < j < |entries| ==> entries[j].questionId != entries[i].questionId
  }

  lemma {:induction false} PutMembers(entries: seq<Entry>, e: Entry, x: Entry)
    requires Distinct(QuestionIds(entries))
    ensures x in PutEntry(entries, e) <==> x == e || (x in entries && x.questionId != e.questionId)
  {
    if entries != [] {
      var head, tail := entries[0], entries[1..];
      assert QuestionIds(entries)[1..] == QuestionIds(tail);
      assert Distinct(QuestionIds(tail));
      PutMembers(tail, e, x);
      assert entries == [head] + tail;
      forall y | y in tail
        ensures y.questionId != head.questionId
      {
        var i :| 0 <= i < |tail| && tail[i] == y;
        assert QuestionIds(entries)[i + 1] != QuestionIds(entries)[0];
      }
    }
  }

  lemma QuestionIdsPrepend(e: Entry, entries: seq<Entry>)
    ensures QuestionIds([e] + entries) == [e.questionId] + QuestionIds(entries) && QuestionIds([]) == []
  {
  }

  lemma {:induction false} PutKeepsQuestions(entries: seq<Entry>, e: Entry)
    requires Distinct(QuestionIds(entries))
    ensures var ids := QuestionIds(entries);
            QuestionIds(PutEntry(entries, e)) == if e.questionId in ids then ids else ids + [e.questionId]
  {
    hide QuestionIds;
    if entries == [] {
      QuestionIdsPrepend(e, []);
      assert [e] + [] == [e] && QuestionIds([]) == [];
    } else {
      var head, tail := entries[0], entries[1..];
      assert entries == [head] + tail;
      QuestionIdsPrepend(head, tail);
      assert ([head.questionId] + QuestionIds(tail))[1..] == QuestionIds(tail);
      PutKeepsQuestions(tail, e);
      if head.questionId == e.questionId {
        QuestionIdsPrepend(e, tail);
      } else {
        QuestionIdsPrepend(head, PutEntry(tail, e));
        var ids := QuestionIds(tail);
        assert [head.questionId] + (ids + [e.questionId]) == ([head.questionId] + ids) + [e.questionId];
      }
    }
  }

  lemma NoQuestions()
    ensures QuestionIds([]) == []
  {
  }

  /** One entry for each question, the last one given for it. */
  lemma {:induction false} ByQuestionExactly(entries: seq<Entry>, x: Entry)
    ensures Distinct(QuestionIds(ByQuestion(entries)))
    ensures x in ByQuestion(entries) <==> exists i: nat :: LastForQuestion(entries, i) && entries[i] == x
  {
    hide PutEntry, QuestionIds;
    if entries == [] {
      NoQuestions();
    } else {
      var n := |entries| - 1;
      var init, last := entries[..n], entries[n];
      ByQuestionExactly(init, x);
      PutMembers(ByQuestion(init), last, x);
      PutKeepsQuestions(ByQuestion(init), last);
      assert LastForQuestion(entries, n);
      forall i: nat
        ensures LastForQuestion(entries, i)
           <==> i == n || (LastForQuestion(init, i) && init[i].questionId != last.questionId)
      {
        if LastForQuestion(entries, i) && i != n {
          assert entries[n].questionId != entries[i].questionId;
        }
      }
    }
  }

  /** The card at `i` is the last with this id. */
  ghost predicate LastWithId(cards: seq<Value>, id: string, i: nat) {
    i < |cards| && GetIn(cards[i], "id") == Some(Str(id))
    && forall j :: i < j < |cards| ==> GetIn(cards[j], "id") != Some(Str(id))
  }

  ghost predicate IsLastCard(cards: seq<Value>, id: string, card: Value) {
    exists i: nat :: LastWithId(cards, id, i) && cards[i] == card
  }

  lemma {:induction false} QuestionMapExactly(cards: seq<Value>, id: string, card: Value)
    ensures id in QuestionMap(cards) && QuestionMap(cards)[id] == card <==> IsLastCard(cards, id, card)
  {
    if cards != [] {
      var n := |cards| - 1;
      QuestionMapExactly(cards[..n], id, card);
      if GetIn(cards[n], "id") == Some(Str(id)) {
        assert LastWithId(cards, id, n);
      } else {
        forall i: nat
          ensures LastWithId(cards[..n], id, i) <==> LastWithId(cards, id, i)
        {
        }
      }
    }
  }

  /** The entry answers this card: by options the card offers or by free texts that say something, and by something. */
  ghost predicate AnswersCard(e: Entry, card: Value) {
    && (forall id <- e.correctOptionIds :: NamesOption(card, id))
    && (forall answer <- e.acceptedAnswers :: exists c :: c in answer && !IsSpace(c))
    && (e.correctOptionIds != [] || e.acceptedAnswers != [])
  }

  /** The entry answers the last card with the id of its question. */
  ghost predicate AnswersItsCard(cards: seq<Value>, e: Entry) {
    exists i: nat :: LastWithId(cards, e.questionId, i) && AnswersCard(e, cards[i])
  }

  lemma EntryErrorExactly(cards: seq<Value>, e: Entry)
    ensures EntryError(QuestionMap(cards), e) == None <==> AnswersItsCard(cards, e)
  {
    var questions := QuestionMap(cards);
    forall card
      ensures e.questionId in questions && questions[e.questionId] == card <==> IsLastCard(cards, e.questionId, card)
    {
      QuestionMapExactly(cards, e.questionId, card);
    }
    if e.questionId in questions {
      var card := questions[e.questionId];
      CardObjections(card, e);
      assert IsLastCard(cards, e.questionId, card);
    }
    if i: nat :| LastWithId(cards, e.questionId, i) && AnswersCard(e, cards[i]) {
      assert IsLastCard(cards, e.questionId, cards[i]);
    }
  }

  lemma CardObjections(card: Value, e: Entry)
    ensures AnswersCard(e, card)
       <==> !(exists id <- e.correctOptionIds :: !SelectedResponse(card, id))
            && !(exists answer <- e.acceptedAnswers :: Blank(answer))
            && (e.correctOptionIds != [] || e.acceptedAnswers != [])
  {
    hide SelectedResponse, NamesOption;
    forall id
      ensures SelectedResponse(card, id) <==> NamesOption(card, id)
    {
      SelectedExactly(card, id);
    }
  }

  lemma {:induction false} FirstErrorExactly(questions: map<string, Value>, entries: seq<Entry>)
    ensures FirstError(questions, entries) == None <==> forall e <- entries :: EntryError(questions, e) == None
    ensures FirstError(questions, entries).Some? ==>
              exists i :: 0 <= i < |entries| && FirstError(questions, entries) == EntryError(questions, entries[i])
                          && forall j :: 0 <= j < i ==> EntryError(questions, entries[j]) == None
  {
    hide EntryError;
    if entries != [] {
      FirstErrorExactly(questions, entries[1..]);
      assert entries == [entries[0]] + entries[1..];
      assert entries[0] in entries;
      if EntryError(questions, entries[0]) == None && FirstError(questions, entries[1..]).Some? {
        var rest := entries[1..];
        var i :| 0 <= i < |rest| && FirstError(questions, rest) == EntryError(questions, rest[i])
                 && forall j :: 0 <= j < i ==> EntryError(questions, rest[j]) == None;
        forall j | 0 <= j < i + 1
          ensures EntryError(questions, entries[j]) == None
        {
          assert j > 0 ==> entries[j] == rest[j - 1];
        }
        assert FirstError(questions, entries) == EntryError(questions, entries[i + 1]);
      }
    }
  }

  /**
   Any answer set at all passes verification exactly when the last entry for each question answers the last card with
   that id: its options are offered there, its free texts are not blank, and it has one or the other.
   */
  lemma VerificationPassesExactly(sections: seq<Value>, s: AnswerSet)
    ensures Verify(sections, s) == None
       <==> forall i: nat :: LastForQuestion(s.entries, i) ==>
              AnswersItsCard(Cards(sections), s.entries[i])
  {
    hide EntryError, FirstError, ByQuestion, QuestionMap, AnswersItsCard, Cards;
    var cards, entries := Cards(sections), ByQuestion(s.entries);
    FirstErrorExactly(QuestionMap(cards), entries);
    forall e
      ensures e in entries <==> exists i: nat :: LastForQuestion(s.entries, i) && s.entries[i] == e
    {
      ByQuestionExactly(s.entries, e);
    }
    forall e
      ensures EntryError(QuestionMap(cards), e) == None <==> AnswersItsCard(cards, e)
    {
      EntryErrorExactly(cards, e);
    }
    forall i: nat | LastForQuestion(s.entries, i)
      ensures s.entries[i] in entries
    {
    }
  }

  // ---- answer keys

  /** Each section of the key of a derived answer set spells out the answer of a card, under that card's id. */
  lemma KeySpellsAnswer(artifact: seq<Value>, entries: seq<Entry>, i: nat)
    requires EntriesOf(Cards(artifact)) == Ok(entries) && i < |entries|
    ensures exists card, id, answer ::
              && card in Cards(artifact) && Says(GetIn(card, "id"), id) && Says(GetIn(card, "answer"), answer)
              && KeyRichSection(entries[i])
                 == RichSection("answer-key-" + id, "Question " + id, [ParagraphOf("Answer: " + answer)])
  {
    hide Cards, EntriesOf, EntryOf;
    EntriesComeFromCards(Cards(artifact));
    var e := entries[i];
    assert e in entries;
    var k: nat :| ComesFrom(e, Cards(artifact), k);
    var card := Cards(artifact)[k];
    EntryExactly(card);
    var answer :| Says(GetIn(card, "answer"), answer) && Answers(card, e, answer);
    assert AnswerText(e) == answer;
    assert card in Cards(artifact) && Says(GetIn(card, "id"), e.questionId) && Says(GetIn(card, "answer"), answer);
  }

  /** The card at `i` is the last whose id is written like this. */
  ghost predicate LastWritten(registry: Registry, cards: seq<Value>, id: string, i: nat) {
    i < |cards| && Written(registry, GetIn(cards[i], "id").GetOr(Null)) == id
    && forall j :: i < j < |cards| ==> Written(registry, GetIn(cards[j], "id").GetOr(Null)) != id
  }

  lemma WrittenIdExactly(registry: Registry, card: Value)
    ensures WrittenId(registry, card) == Written(registry, GetIn(card, "id").GetOr(Null))
  {
  }

  lemma {:induction false} CardsByIdExactly(registry: Registry, cards: seq<Value>, id: string, card: Value)
    ensures id in CardsById(registry, cards) && CardsById(registry, cards)[id] == card
       <==> exists i: nat :: LastWritten(registry, cards, id, i) && cards[i] == card
  {
    hide Written, WrittenId;
    if cards != [] {
      var n := |cards| - 1;
      CardsByIdExactly(registry, cards[..n], id, card);
      WrittenIdExactly(registry, cards[n]);
      if Written(registry, GetIn(cards[n], "id").GetOr(Null)) == id {
        assert LastWritten(registry, cards, id, n);
      } else {
        forall i: nat
          ensures LastWritten(registry, cards[..n], id, i) <==> LastWritten(registry, cards, id, i)
        {
        }
      }
    }
  }

  /** The section for an entry carries the question's text as its summary, and a joined answer. */
  lemma KeySectionExactly(registry: Registry, e: Entry, card: Value)
    ensures var v, text := KeySection(registry, e, card), GetIn(card, "text");
            && (forall s :: text == Some(Str(s)) ==> GetIn(v, "summary") == Some(Str(s)))
            && (text.None? || Falsy(text.value) ==> GetIn(v, "summary") == Some(Str("")))
            && GetIn(v, "title") == Some(Str("Question " + e.questionId))
            && (e.correctOptionIds != [] ==>
                  GetIn(v, "components") == Some(Arr([ParagraphOf("Answer: " + Join(e.correctOptionIds))])))
            && (e.correctOptionIds == [] ==>
                  GetIn(v, "components") == Some(Arr([ParagraphOf("Answer: " + Join(e.acceptedAnswers))])))
  {
    hide Join;
    KeySectionFields(registry, e, card);
    var fields := KeySection(registry, e, card).fields;
    assert fields[0].key == "id" && fields[1].key == "title" && fields[2].key == "summary";
    assert "id"[0] == 'i' && "title"[0] == 't' && "summary"[0] == 's';
    assert Get(fields, "summary") == Get(fields[1..], "summary") == Get(fields[1..][1..], "summary");
    assert fields[1..][1..][0] == fields[2];
  }

  /** The key around its sections: its title names the assessment's, its metadata counts the sections. */
  lemma KeyContentExactly(registry: Registry, title: Option<Value>, sections: seq<Value>, theme: string,
                          language: string)
    ensures var c := KeyContent(registry, title, sections, theme, language);
            && c.artifactType == AnswerKey && c.sections == sections && c.theme == theme
            && (title.None? ==> c.title == "Answer Key: Assessment")
            && (forall s :: title == Some(Str(s)) ==> c.title == "Answer Key: " + s)
            && Get(c.metadata, "total_questions") == Some(Num(|sections|))
            && Get(c.accessibility, "language") == Some(Str(language))
  {
  }

  /** Several answers are joined with a comma and a space. */
  lemma {:induction false} JoinAppends(parts: seq<string>, last: string)
    ensures Join(parts + [last]) == if parts == [] then last else Join(parts) + ", " + last
  {
    if |parts| > 1 {
      JoinAppends(parts[1..], last);
      assert (parts + [last])[1..] == parts[1..] + [last];
      assert parts[0] + ", " + (Join(parts[1..]) + ", " + last) == (parts[0] + ", " + Join(parts[1..])) + ", " + last;
    } else if |parts| == 1 {
      assert (parts + [last])[1..] == [last];
    } else {
      assert [] + [last] == [last];
    }
  }
}
