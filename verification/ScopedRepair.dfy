/** Scoped repair: replacing one entity of a validated Semantic Content IR without touching anything else. */
module ScopedRepair {
  import opened Wrappers
  import opened Sequences
  import opened Ordering
  import opened Ids
  import opened SemanticIr

  datatype CandidateEntity = CandidateEntity(candidateId: Id, semanticId: Id)

  datatype RepairPlan = RepairPlan(repairId: Id, semanticId: Id, failureCodes: seq<string>, preserved: seq<Id>,
                                   attempt: int)

  datatype ReceiptBody = ReceiptBody(receiptId: Id, requirementId: Id, candidates: seq<CandidateEntity>,
                                     selected: Option<Id>, repairs: seq<RepairPlan>)

  datatype Receipt = Receipt(body: ReceiptBody, hashed: ReceiptBody)

  datatype Synthesis = Synthesis(ir: Ir, receipts: seq<Receipt>)

  datatype Repair = Repair(semanticId: Id, replacement: Entity, failureCodes: seq<string>)

  datatype RepairError = IdChanged | UnknownEntity | LineageChanged | Invalid(defect: Defect)

  function Find(entities: seq<Entity>, id: Id): Option<Entity> {
    if entities == [] then None
    else if entities[0].id == id then Some(entities[0])
    else Find(entities[1..], id)
  }

  function Replaced(entities: seq<Entity>, r: Repair): seq<Entity> {
    Map((e: Entity) => if e.id == r.semanticId then r.replacement else e, entities)
  }

  function RepairedIr(ir: Ir, r: Repair): Ir {
    var body := ir.body.(entities := Replaced(ir.body.entities, r), version := ir.body.version + 1);
    Ir(body, body)
  }

  /** The ids of all other entities, sorted. */
  function Preserved(p: Primitives, entities: seq<Entity>, semanticId: Id): seq<Id> {
    SortBy(p.idLe, Filter((id: Id) => id != semanticId, EntityIds(entities)))
  }

  /** The receipt selected a candidate and one of its candidates is the entity. */
  predicate Concerns(receipt: ReceiptBody, semanticId: Id) {
    receipt.selected.Some? && exists c <- receipt.candidates :: c.semanticId == semanticId
  }

  function PlanFor(p: Primitives, receipt: ReceiptBody, r: Repair, updated: Ir): RepairPlan {
    RepairPlan(StableId(p, "repair", [receipt.receiptId, Number(updated.body.version)]), r.semanticId, r.failureCodes,
               Preserved(p, updated.body.entities, r.semanticId), 1)
  }

  function RepairedReceipt(p: Primitives, receipt: Receipt, r: Repair, updated: Ir): Receipt {
    if Concerns(receipt.body, r.semanticId) then
      var body := receipt.body.(repairs := receipt.body.repairs + [PlanFor(p, receipt.body, r, updated)]);
      Receipt(body, body)
    else receipt
  }

  function RepairedReceipts(p: Primitives, receipts: seq<Receipt>, r: Repair, updated: Ir): seq<Receipt> {
    Map((receipt: Receipt) => RepairedReceipt(p, receipt, r, updated), receipts)
  }

  predicate SameLineage(a: Entity, b: Entity) {
    a.objectiveIds == b.objectiveIds && a.kcIds == b.kcIds
  }

  /** `scoped_repair`. */
  ghost function RepairOnce(p: Primitives, s: Synthesis, r: Repair): Result<Synthesis, RepairError> {
    var original := Find(s.ir.body.entities, r.semanticId);
    if r.replacement.id != r.semanticId then Err(IdChanged)
    else if original == None then Err(UnknownEntity)
    else if !SameLineage(original.value, r.replacement) then Err(LineageChanged)
    else
      var updated := RepairedIr(s.ir, r);
      var defect := FirstDefect(updated);
      if defect.Some? then Err(Invalid(defect.value))
      else Ok(Synthesis(updated, RepairedReceipts(p, s.receipts, r, updated)))
  }

  method ScopedRepairStep(p: Primitives, s: Synthesis, r: Repair) returns (result: Result<Synthesis, RepairError>)
    ensures result == RepairOnce(p, s, r)
  {
    hide FirstDefect, RepairedIr, PlanFor, Find, SameLineage;
    if r.replacement.id != r.semanticId {
      return Err(IdChanged);
    }
    var original := Find(s.ir.body.entities, r.semanticId);
    if original == None {
      return Err(UnknownEntity);
    }
    if !SameLineage(original.value, r.replacement) {
      return Err(LineageChanged);
    }
    var updated := RepairedIr(s.ir, r);
    var defect := ValidateIr(updated);
    if defect.Some? {
      return Err(Invalid(defect.value));
    }
    var receipts: seq<Receipt> := [];
    for i := 0 to |s.receipts|
      invariant receipts == RepairedReceipts(p, s.receipts[..i], r, updated)
    {
      var receipt := s.receipts[i];
      if Concerns(receipt.body, r.semanticId) {
        var body := receipt.body.(repairs := receipt.body.repairs + [PlanFor(p, receipt.body, r, updated)]);
        receipts := receipts + [Receipt(body, body)];
      } else {
        receipts := receipts + [receipt];
      }
    }
    assert s.receipts[..|s.receipts|] == s.receipts;
    result := Ok(Synthesis(updated, receipts));
  }

  // ---- one repair

  /** The id and lineage guards. */
  predicate GuardsPass(s: Synthesis, r: Repair) {
    var original := Find(s.ir.body.entities, r.semanticId);
    r.replacement.id == r.semanticId && original.Some? && SameLineage(original.value, r.replacement)
  }

  lemma {:induction false} FindFinds(entities: seq<Entity>, id: Id)
    ensures Find(entities, id) == None <==> id !in EntityIds(entities)
    ensures Find(entities, id).Some? ==> Find(entities, id).value in entities && Find(entities, id).value.id == id
  {
    if entities != [] {
      FindFinds(entities[1..], id);
      assert EntityIds(entities) == [entities[0].id] + EntityIds(entities[1..]);
    }
  }

  lemma {:induction false} FindUnique(entities: seq<Entity>, i: nat)
    requires Distinct(EntityIds(entities)) && i < |entities|
    ensures Find(entities, entities[i].id) == Some(entities[i])
  {
    var ids := EntityIds(entities);
    if i > 0 {
      assert ids[0] != ids[i];
      assert ids[1..] == EntityIds(entities[1..]);
      FindUnique(entities[1..], i - 1);
    }
  }

  /** Only the replacement can make the repaired entities objectionable. */
  lemma ReplacedDefect(entities: seq<Entity>, r: Repair)
    requires EntityDefect(entities) == None && r.semanticId in EntityIds(entities)
    ensures EntityDefect(Replaced(entities, r)) ==
              if LacksEvidence(r.replacement) then Some(MissingEvidence)
              else if LeaksAnswer(r.replacement) then Some(AnswerLeak) else None
  {
    if entities[0].id != r.semanticId {
      assert EntityIds(entities)[1..] == EntityIds(entities[1..]);
      assert EntityIds(entities) == [entities[0].id] + EntityIds(entities[1..]);
      ReplacedDefect(entities[1..], r);
      assert Replaced(entities, r)[1..] == Replaced(entities[1..], r);
    } else if EntityOk(r.replacement) {
      EntityDefectMeans(entities);
      EntityDefectMeans(Replaced(entities, r));
    }
  }

  /**
   On an accepted IR a repair that passes the id and lineage guards succeeds exactly when the replacement alone
   passes the evidence and audience checks, and fails with the replacement's own defect otherwise: the checks on
   the whole IR add nothing.
   */
  lemma RepairSucceedsExactly(p: Primitives, s: Synthesis, r: Repair)
    requires FirstDefect(s.ir) == None
    ensures RepairOnce(p, s, r).Ok? <==> GuardsPass(s, r) && EntityOk(r.replacement)
    ensures GuardsPass(s, r) && !EntityOk(r.replacement) ==>
              RepairOnce(p, s, r) == Err(Invalid(if LacksEvidence(r.replacement) then MissingEvidence else AnswerLeak))
  {
    if GuardsPass(s, r) {
      var entities := s.ir.body.entities;
      FindFinds(entities, r.semanticId);
      ReplacedDefect(entities, r);
    }
  }

  /** The replacement takes over id and lineage of this entity, with evidence where it claims, and keeps its answers. */
  ghost predicate MayReplace(e: Entity, replacement: Entity) {
    && replacement.id == e.id && replacement.objectiveIds == e.objectiveIds && replacement.kcIds == e.kcIds
    && (replacement.kind in {Claim, Definition} && replacement.authority == Verified ==>
          replacement.evidenceIds != [])
    && (replacement.kind in {AnswerDerivation, DistractorRationale} ==> replacement.audience == Teacher)
  }

  /** On an accepted IR a repair succeeds exactly when its replacement may stand for an entity with the id it names. */
  lemma RepairAllowedExactly(p: Primitives, s: Synthesis, r: Repair)
    requires FirstDefect(s.ir) == None
    ensures RepairOnce(p, s, r).Ok?
       <==> exists e :: e in s.ir.body.entities && e.id == r.semanticId && MayReplace(e, r.replacement)
  {
    hide FirstDefect, RepairOnce, Find;
    var entities := s.ir.body.entities;
    RepairSucceedsExactly(p, s, r);
    FindFinds(entities, r.semanticId);
    assert Distinct(EntityIds(entities)) by { AcceptedIsDistinct(s.ir); }
    if e :| e in entities && e.id == r.semanticId && MayReplace(e, r.replacement) {
      var i :| 0 <= i < |entities| && entities[i] == e;
      FindUnique(entities, i);
    }
  }

  lemma AcceptedIsDistinct(ir: Ir)
    requires FirstDefect(ir) == None
    ensures Distinct(EntityIds(ir.body.entities))
  {
  }

  ghost predicate HasId(entities: seq<Entity>, id: Id) {
    exists e :: e in entities && e.id == id
  }

  /** The plan lists, once each, the ids of all other entities. */
  ghost predicate PreservesOthers(entities: seq<Entity>, plan: RepairPlan) {
    && (forall id :: id in plan.preserved <==> id != plan.semanticId && HasId(entities, id))
    && Distinct(plan.preserved)
  }

  lemma PreservedExactly(p: Primitives, entities: seq<Entity>, semanticId: Id)
    requires Distinct(EntityIds(entities))
    ensures var preserved := Preserved(p, entities, semanticId);
            && (forall id :: id in preserved <==> id != semanticId && HasId(entities, id))
            && Distinct(preserved) && (TotalPreorder(p.idLe) ==> SortedBy(p.idLe, preserved))
  {
    var ids := EntityIds(entities);
    var others := Filter((id: Id) => id != semanticId, ids);
    FilterMembers((id: Id) => id != semanticId, ids);
    FilterKeepsDistinct((id: Id) => id != semanticId, ids);
    SortPermutes(p.idLe, others);
    SortKeepsDistinct(p.idLe, others);
    if TotalPreorder(p.idLe) {
      SortSorts(p.idLe, others);
    }
    forall id
      ensures id in ids <==> HasId(entities, id)
    {
      if e :| e in entities && e.id == id {
        var i :| 0 <= i < |entities| && entities[i] == e;
        assert ids[i] == id;
      }
      if id in ids {
        var i :| 0 <= i < |ids| && ids[i] == id;
        assert entities[i] in entities;
      }
    }
  }

  /** The receipt has one plan more, which tells of this repair. */
  ghost predicate AddsPlan(p: Primitives, s: Synthesis, r: Repair, before: Receipt, after: Receipt) {
    var n := |before.body.repairs|;
    && |after.body.repairs| == n + 1 && after.body.repairs[..n] == before.body.repairs
    && after.body.(repairs := before.body.repairs) == before.body && after.hashed == after.body
    && var plan := after.body.repairs[n];
       && plan.semanticId == r.semanticId && plan.failureCodes == r.failureCodes && plan.attempt == 1
       && plan.repairId == Digest("repair", [Normalized(p, before.body.receiptId), Number(s.ir.body.version + 1)])
       && PreservesOthers(s.ir.body.entities, plan)
  }

  /**
   What a successful repair writes into a receipt that selected a candidate and has the entity among its candidates: one
   plan, with the entity, the failure codes, and the ids of all other entities of the IR. Other receipts stay.
   */
  lemma RepairPlanExactly(p: Primitives, s: Synthesis, r: Repair, j: nat)
    requires FirstDefect(s.ir) == None && RepairOnce(p, s, r).Ok? && j < |s.receipts|
    ensures var t, before := RepairOnce(p, s, r).value, s.receipts[j].body;
            var concerned := before.selected.Some?
                             && exists c :: c in before.candidates && c.semanticId == r.semanticId;
            && |t.receipts| == |s.receipts|
            && (!concerned ==> t.receipts[j] == s.receipts[j])
            && (concerned ==> AddsPlan(p, s, r, s.receipts[j], t.receipts[j]))
  {
    hide FirstDefect, Preserved, PreservesOthers, Find, SameLineage;
    var before, updated := s.receipts[j].body, RepairedIr(s.ir, r);
    var plan := PlanFor(p, before, r, updated);
    assert Concerns(before, r.semanticId)
      <==> before.selected.Some? && exists c :: c in before.candidates && c.semanticId == r.semanticId;
    assert plan.repairId.parts == [Normalized(p, before.receiptId), Number(s.ir.body.version + 1)];
    RepairedPlanPreserves(p, s, r, plan);
    if Concerns(before, r.semanticId) {
      assert RepairOnce(p, s, r).value.receipts[j].body == before.(repairs := before.repairs + [plan]);
      assert (before.repairs + [plan])[..|before.repairs|] == before.repairs;
    }
  }

  lemma RepairedPlanPreserves(p: Primitives, s: Synthesis, r: Repair, plan: RepairPlan)
    requires FirstDefect(s.ir) == None && RepairOnce(p, s, r).Ok? && plan.semanticId == r.semanticId
    requires plan.preserved == Preserved(p, RepairedIr(s.ir, r).body.entities, r.semanticId)
    ensures PreservesOthers(s.ir.body.entities, plan)
  {
    hide Preserved;
    var entities := s.ir.body.entities;
    assert EntityIds(Replaced(entities, r)) == EntityIds(entities);
    PreservedExactly(p, Replaced(entities, r), r.semanticId);
    forall id
      ensures HasId(Replaced(entities, r), id) <==> HasId(entities, id)
    {
      SameIds(Replaced(entities, r), entities, id);
    }
  }

  lemma SameIds(a: seq<Entity>, b: seq<Entity>, id: Id)
    requires EntityIds(a) == EntityIds(b)
    ensures HasId(a, id) <==> HasId(b, id)
  {
    if e :| e in a && e.id == id {
      var i :| 0 <= i < |a| && a[i] == e;
      assert EntityIds(b)[i] == id && b[i] in b;
    }
    if e :| e in b && e.id == id {
      var i :| 0 <= i < |b| && b[i] == e;
      assert EntityIds(a)[i] == id && a[i] in a;
    }
  }

  // ---- every sequence of successful repairs

  ghost function RepairAll(p: Primitives, s: Synthesis, rs: seq<Repair>): Result<Synthesis, RepairError> {
    if rs == [] then Ok(s)
    else
      var before := RepairAll(p, s, rs[..|rs| - 1]);
      if before.Err? then before else RepairOnce(p, before.value, rs[|rs| - 1])
  }

  /** What an entity has become: the replacement of the last repair that names it. */
  function Current(e: Entity, rs: seq<Repair>): Entity {
    if rs == [] then e
    else if rs[|rs| - 1].semanticId == e.id then rs[|rs| - 1].replacement
    else Current(e, rs[..|rs| - 1])
  }

  /** Everything of the IR but its entities, its version and its hash. */
  function Frame(ir: Ir): IrBody {
    ir.body.(entities := [], version := 0)
  }

  lemma RepairOnceKeeps(p: Primitives, s: Synthesis, r: Repair)
    requires FirstDefect(s.ir) == None && RepairOnce(p, s, r).Ok?
    ensures var t := RepairOnce(p, s, r).value;
            && FirstDefect(t.ir) == None && t.ir.body.version == s.ir.body.version + 1 && Frame(t.ir) == Frame(s.ir)
            && |t.ir.body.entities| == |s.ir.body.entities|
            && forall i :: 0 <= i < |s.ir.body.entities| ==>
                 var a, b := s.ir.body.entities[i], t.ir.body.entities[i];
                 b.id == a.id && SameLineage(a, b) && b == if a.id == r.semanticId then r.replacement else a
  {
    var t := RepairOnce(p, s, r).value;
    var entities := s.ir.body.entities;
    forall i | 0 <= i < |entities|
      ensures var a, b := entities[i], t.ir.body.entities[i];
              b.id == a.id && SameLineage(a, b) && b == if a.id == r.semanticId then r.replacement else a
    {
      FindUnique(entities, i);
    }
  }

  /**
   Every sequence of successful repairs keeps the IR valid, its entity order and ids, their lineage, the dependency
   graph and every entity no repair names; a named entity ends as the last replacement made for it; and the version
   rises by one a repair.
   */
  lemma {:induction false} RepairsPreserve(p: Primitives, s: Synthesis, rs: seq<Repair>)
    requires FirstDefect(s.ir) == None && RepairAll(p, s, rs).Ok?
    ensures var t := RepairAll(p, s, rs).value;
            && FirstDefect(t.ir) == None && t.ir.body.version == s.ir.body.version + |rs| && Frame(t.ir) == Frame(s.ir)
            && |t.ir.body.entities| == |s.ir.body.entities|
            && forall i :: 0 <= i < |s.ir.body.entities| ==>
                 var a, b := s.ir.body.entities[i], t.ir.body.entities[i];
                 b.id == a.id && SameLineage(a, b) && b == Current(a, rs)
  {
    if rs != [] {
      RepairsPreserve(p, s, rs[..|rs| - 1]);
      RepairOnceKeeps(p, RepairAll(p, s, rs[..|rs| - 1]).value, rs[|rs| - 1]);
    }
  }

  lemma {:induction false} UnnamedIsCurrent(e: Entity, rs: seq<Repair>)
    requires forall r <- rs :: r.semanticId != e.id
    ensures Current(e, rs) == e
  {
    if rs != [] {
      UnnamedIsCurrent(e, rs[..|rs| - 1]);
    }
  }

  /** The entities repaired, as far as they concern a receipt. */
  function Concerning(receipt: ReceiptBody, rs: seq<Repair>): seq<Id> {
    Filter(id => Concerns(receipt, id), Map((r: Repair) => r.semanticId, rs))
  }

  function PlannedIds(plans: seq<RepairPlan>): seq<Id> {
    Map((plan: RepairPlan) => plan.semanticId, plans)
  }

  ghost predicate Logged(before: Receipt, after: Receipt, rs: seq<Repair>) {
    && after.body.(repairs := []) == before.body.(repairs := [])
    && before.body.repairs <= after.body.repairs
    && PlannedIds(after.body.repairs) == PlannedIds(before.body.repairs) + Concerning(before.body, rs)
    && (before.hashed == before.body ==> after.hashed == after.body)
  }

  lemma LoggedOnce(p: Primitives, before: Receipt, middle: Receipt, rs: seq<Repair>, r: Repair, updated: Ir)
    requires Logged(before, middle, rs)
    ensures Logged(before, RepairedReceipt(p, middle, r, updated), rs + [r])
  {
    var ids := Map((x: Repair) => x.semanticId, rs);
    assert Map((x: Repair) => x.semanticId, rs + [r]) == ids + [r.semanticId];
    FilterAppend(id => Concerns(before.body, id), ids, r.semanticId);
    assert Concerns(before.body, r.semanticId) == Concerns(middle.body, r.semanticId) by {
      assert before.body.candidates == before.body.(repairs := []).candidates == middle.body.candidates;
      assert before.body.selected == before.body.(repairs := []).selected == middle.body.selected;
    }
    var after := RepairedReceipt(p, middle, r, updated);
    if Concerns(middle.body, r.semanticId) {
      var plan := PlanFor(p, middle.body, r, updated);
      assert PlannedIds(middle.body.repairs + [plan]) == PlannedIds(middle.body.repairs) + [r.semanticId];
      assert after.body.(repairs := []) == middle.body.(repairs := []);
    }
  }

  /** Each receipt gains one plan for every repair of one of its candidates, in order, and changes in nothing else. */
  lemma {:induction false} RepairsAreLogged(p: Primitives, s: Synthesis, rs: seq<Repair>)
    requires RepairAll(p, s, rs).Ok?
    ensures var t := RepairAll(p, s, rs).value;
            && |t.receipts| == |s.receipts|
            && forall j :: 0 <= j < |s.receipts| ==> Logged(s.receipts[j], t.receipts[j], rs)
  {
    if rs != [] {
      var init, r := rs[..|rs| - 1], rs[|rs| - 1];
      RepairsAreLogged(p, s, init);
      var middle := RepairAll(p, s, init).value;
      assert rs == init + [r];
      forall j | 0 <= j < |s.receipts|
        ensures Logged(s.receipts[j], RepairedReceipt(p, middle.receipts[j], r, RepairedIr(middle.ir, r)), rs)
      {
        LoggedOnce(p, s.receipts[j], middle.receipts[j], init, r, RepairedIr(middle.ir, r));
      }
    } else {
      forall j | 0 <= j < |s.receipts|
        ensures Logged(s.receipts[j], s.receipts[j], rs)
      {
        assert Concerning(s.receipts[j].body, []) == [];
      }
    }
  }
}
