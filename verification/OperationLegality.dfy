/// When an operation faults
/// ========================

module OperationLegality {
  import opened PersistentMemory
  import opened Instructions
  import opened CopyPlans
  import opened WriteBackPlans
  import opened CopyCode
  import opened CopyLegality
  import opened PersistentCopies
  import opened ConcurrentCopies

  lemma {:induction false} ScalarCodeIsLegal(style: Style, dest: nat, src: nat, plan: Plan)
    requires !style.Vector? || OnlyWriteBacks(plan)
    ensures AllLegal(Code(style, dest, src, plan))
  {
    if plan != [] {
      assert plan[0] in plan && forall act | act in plan[1..] :: act in plan;
      ScalarCodeIsLegal(style, dest, src, plan[1..]);
    }
  }

  lemma VectorCodeIsLegal(ld: Kind, strategy: Strategy, dest: nat, src: nat, len: nat)
    requires !ld.Scalar?
    ensures var op := VectorCopy(ld, strategy);
            AllLegal(Code(StyleOf(op), dest, src, PlanOf(op, dest, len))) <==> Compatible(dest, src, len)
  {
    hide PlainPlan, FlushPlan, NtPlan, Compatible, Code, AllLegal, WriteBacks, Span;
    match strategy
    case ByAll =>
      LegalIffCompatible(ld, Aligned, dest, src, len, PlainPlan(dest, len));
      ExtentOnlyWritesBack(Span(LineOf(dest), dest + len));
      ScalarCodeIsLegal(Vector(ld, Aligned), dest, src, ExtentPlan(dest, len));
      CodeConcat(Vector(ld, Aligned), dest, src, PlainPlan(dest, len), ExtentPlan(dest, len));
      AllLegalConcat(Code(Vector(ld, Aligned), dest, src, PlainPlan(dest, len)),
                     Code(Vector(ld, Aligned), dest, src, ExtentPlan(dest, len)));
    case ByCacheline => LegalIffCompatible(ld, Aligned, dest, src, len, FlushPlan(dest, len));
    case NtStores => LegalIffCompatible(ld, Streaming, dest, src, len, NtPlan(dest, len));
  }

  /// An operation runs without a fault if and only if it is no vector copy, or its ranges are aligned to
  /// each other.
  lemma OperationIsLegal(op: Operation, dest: nat, src: nat, len: nat)
    requires op.VectorCopy? ==> !op.ld.Scalar?
    ensures AllLegal(OpCode(op, dest, src, len)) <==> (op.VectorCopy? ==> Compatible(dest, src, len))
  {
    hide PlanOf, Compatible, Code;
    var code := Code(StyleOf(op), dest, src, PlanOf(op, dest, len));
    AllLegalConcat(code, [Sfence]);
    if op.VectorCopy? {
      VectorCodeIsLegal(op.ld, op.strategy, dest, src, len);
    } else {
      ScalarCodeIsLegal(StyleOf(op), dest, src, PlanOf(op, dest, len));
    }
  }

  lemma {:induction false} JobIsLegal(job: Job)
    ensures AllLegal(JobCode(job)) <==> forall k | 0 <= k < |job| :: AllLegal(CallCode(job[k]))
  {
    hide CallCode, AllLegal;
    if job == [] {
      NothingIsIllegal();
    } else {
      var n := |job| - 1;
      JobIsLegal(job[..n]);
      AllLegalConcat(JobCode(job[..n]), CallCode(job[n]));
      assert forall k | 0 <= k < n :: job[..n][k] == job[k];
    }
  }

  lemma NothingIsIllegal()
    ensures AllLegal([])
  {
  }
}
