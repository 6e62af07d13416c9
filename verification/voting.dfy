/**
 The voting service as an immutable state record: the active question (absent
 until the first configuration) and the accepted submissions, keyed by student
 identifier. `TokenBag` is the reference meaning of a report: the multiset of
 every token read out of every stored answer, independent of any iteration
 order over the submissions.
 */
module Voting {
  import opened Wrappers
  import opened JavaStrings
  import opened Questions
  import opened Students
  import opened Bags

  datatype Service = Service(question: Option<Question>, subs: map<string, string>)

  /**
   The state invariant: before configuration nothing is stored, and afterwards
   every stored answer is valid for the active question.
   */
  predicate Invariant(svc: Service) {
    match svc.question
    case None => svc.subs == map[]
    case Some(q) => forall id :: id in svc.subs ==> Validate(q, svc.subs[id])
  }

  /** A new service: no question, no submissions. */
  function Init(): (svc: Service)
    ensures Invariant(svc)
    ensures svc.question.None? && |svc.subs| == 0
  {
    Service(None, map[])
  }

  /** `configureQuestion`: the new question becomes active and every earlier submission is discarded. */
  function Configure(svc: Service, q: Question): (r: Service)
    ensures r.question == Some(q)
    ensures |r.subs| == 0
    ensures Invariant(r)
  {
    Service(Some(q), map[])
  }

  /**
   Whether the student's current answer is accepted by `q`. A student who has
   not answered carries no string: a single-choice candidate list never
   contains it, so it is rejected.
   */
  predicate Accepts(q: Question, st: Student) {
    GetAnswer(st).Some? && Validate(q, GetAnswer(st).value)
  }

  /**
   The calls to `submitAns` that complete: a question must be active, and a
   multi-choice question cannot split an answer that was never written.
   */
  predicate CanSubmit(svc: Service, st: Student) {
    svc.question.Some? && (st.answer.Some? || svc.question.value.Single?)
  }

  /** `submitAns`: store the student's answer under their identifier if it is valid, otherwise drop it silently. */
  function Submit(svc: Service, st: Student): (r: Service)
    requires CanSubmit(svc, st)
    ensures r.question == svc.question
    ensures Accepts(svc.question.value, st) ==>
              && st.id in r.subs && r.subs[st.id] == st.answer.value
              && r.subs.Keys == svc.subs.Keys + {st.id}
    ensures !Accepts(svc.question.value, st) ==> r == svc
    ensures forall id :: id != st.id ==>
              (id in r.subs <==> id in svc.subs) && (id in r.subs ==> r.subs[id] == svc.subs[id])
    ensures Invariant(svc) ==> Invariant(r)
  {
    if Accepts(svc.question.value, st) then
      svc.(subs := svc.subs[st.id := GetAnswer(st).value])
    else svc
  }

  /** Submitting twice for one student keeps only the second answer when it is accepted. */
  lemma OverwriteLaw(svc: Service, st: Student, first: string, second: string)
    requires svc.question.Some?
    requires Accepts(svc.question.value, SubmitAnswer(st, second))
    ensures Submit(Submit(svc, SubmitAnswer(st, first)), SubmitAnswer(st, second))
            == Submit(svc, SubmitAnswer(st, second))
    ensures Submit(Submit(svc, SubmitAnswer(st, first)), SubmitAnswer(st, second)).subs[st.id] == second
  {
    var s1 := Submit(svc, SubmitAnswer(st, first));
    var s2 := Submit(s1, SubmitAnswer(st, second));
    var d := Submit(svc, SubmitAnswer(st, second));
    assert s2.subs == d.subs;
  }

  // ---------------------------------------------------------------------------
  // The meaning of a report
  // ---------------------------------------------------------------------------

  /** How the question reads a stored answer into counted tokens. */
  function Reader(q: Question): string -> seq<string>
  {
    answer => Tokens(q, answer)
  }

  /** A report can be computed when a question is active or when nothing is stored. */
  predicate Reportable(svc: Service) {
    svc.question.Some? || svc.subs == map[]
  }

  /**
   Every token of every stored answer, as the active question reads it; its
   multiplicity of `t` is the count reported for `t`.
   */
  ghost function TokenBag(svc: Service): multiset<string>
    requires Reportable(svc)
  {
    match svc.question
    case None => multiset{}
    case Some(q) => BagOf(Reader(q), svc.subs)
  }

  /** Once a question is active, the report reads every stored answer with that question. */
  lemma TokenBagOfActive(svc: Service)
    requires svc.question.Some?
    ensures TokenBag(svc) == BagOf(Reader(svc.question.value), svc.subs)
  {
  }

  /**
   Single-choice reports count whole answers: the count of `t` is the number
   of students whose stored answer is exactly `t`, and the counts add up to the
   number of students stored.
   */
  lemma SingleChoiceReport(svc: Service, t: string)
    requires svc.question.Some? && svc.question.value.Single?
    ensures TokenBag(svc)[t] == |Holders(svc.subs, svc.subs.Keys, t)|
    ensures |TokenBag(svc)| == |svc.subs|
  {
    var m := Multisets(ListsOf(Reader(svc.question.value), svc.subs));
    forall id | id in svc.subs.Keys
      ensures m[id] == multiset{svc.subs[id]}
    {
    }
    SumOfSingletons(m, svc.subs, svc.subs.Keys, t);
    SumOfSingletonsSize(m, svc.subs, svc.subs.Keys);
  }

  /** A token is reported iff some stored answer yields it: for multi-choice, a piece that trims to it. */
  lemma ReportedIffSomeAnswerYields(svc: Service, t: string)
    requires svc.question.Some?
    ensures t in TokenBag(svc) <==> exists id :: id in svc.subs && t in Tokens(svc.question.value, svc.subs[id])
  {
    var q := svc.question.value;
    var m := Multisets(ListsOf(Reader(q), svc.subs));
    SumMembers(m, svc.subs.Keys, t);
    assert forall id :: id in svc.subs ==> m[id] == multiset(Tokens(q, svc.subs[id]));
  }

  /** Under the invariant every reported token is one of the active question's candidates. */
  lemma ReportedTokensAreCandidates(svc: Service, t: string)
    requires svc.question.Some? && Invariant(svc)
    ensures t in TokenBag(svc) ==> t in svc.question.value.cands
  {
    var q := svc.question.value;
    ReportedIffSomeAnswerYields(svc, t);
    if t in TokenBag(svc) {
      var id :| id in svc.subs && t in Tokens(q, svc.subs[id]);
      ValidIffTokensAreCandidates(q, svc.subs[id]);
    }
  }

  /** Reconfiguring empties the report, whatever was stored before. */
  lemma ConfigureClearsReport(svc: Service, q: Question)
    ensures Reportable(Configure(svc, q))
    ensures TokenBag(Configure(svc, q)) == multiset{}
  {
    assert Configure(svc, q).subs.Keys == {};
  }

  /**
   The report after a submission: a rejected answer changes nothing; an
   accepted one replaces the tokens of the student's previous answer, if any,
   with the tokens of the new one, so a resubmission is never counted twice.
   */
  lemma SubmitReport(svc: Service, st: Student)
    requires CanSubmit(svc, st)
    ensures st.id in svc.subs ==> multiset(Tokens(svc.question.value, svc.subs[st.id])) <= TokenBag(svc)
    ensures !Accepts(svc.question.value, st) ==> TokenBag(Submit(svc, st)) == TokenBag(svc)
    ensures Accepts(svc.question.value, st) && st.id in svc.subs ==>
              TokenBag(Submit(svc, st))
              == TokenBag(svc) - multiset(Tokens(svc.question.value, svc.subs[st.id]))
                 + multiset(Tokens(svc.question.value, st.answer.value))
    ensures Accepts(svc.question.value, st) && st.id !in svc.subs ==>
              TokenBag(Submit(svc, st)) == TokenBag(svc) + multiset(Tokens(svc.question.value, st.answer.value))
  {
    var q := svc.question.value;
    var a := st.answer.GetOr([]);
    BagOfPut(Reader(q), svc.subs, st.id, a);
    if st.id in svc.subs {
      assert Reader(q)(svc.subs[st.id]) == Tokens(q, svc.subs[st.id]);
    }
    if Accepts(q, st) {
      assert Submit(svc, st).subs == svc.subs[st.id := a];
      assert Reader(q)(a) == Tokens(q, a);
    }
  }
}
