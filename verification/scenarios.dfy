/**
 Concrete runs of the service: the two polls of the simulation with fixed
 answers instead of random ones, and the edge cases of multi-choice reading.
 */
module Scenarios {
  import opened Wrappers
  import opened JavaStrings
  import opened Questions
  import opened Students
  import opened Voting
  import opened Counting
  import opened Bags

  const Letters: seq<string> := ["A", "B", "C", "D"]
  const Verdicts: seq<string> := ["1. Right", "2. Wrong"]

  /** A letter followed by a space-prefixed letter, as the simulation builds a two-choice answer. */
  lemma ReadTwo(x: string, y: string)
    requires x in Letters && y in Letters
    ensures Tokens(Multi(Letters), x + ", " + y) == [x, y]
    ensures Validate(Multi(Letters), x + ", " + y)
  {
    var ps := [x, " " + y];
    assert Join(ps) == x + ", " + y;
    SplitJoin(ps);
    TrimUnique([], x, []);
    TrimUnique(" ", y, []);
    assert [] + x + [] == x;
    assert " " + y + [] == " " + y;
  }

  /** A one-letter answer is its own single token. */
  lemma ReadOne(x: string)
    requires x in Letters
    ensures Tokens(Multi(Letters), x) == [x]
    ensures Validate(Multi(Letters), x)
  {
    MultiWithoutComma(Letters, x);
    TrimUnique([], x, []);
    assert [] + x + [] == x;
  }

  /** Two letters joined by a bare comma read as those two letters. */
  lemma ReadPair(x: string, y: string)
    requires x in Letters && y in Letters
    ensures Tokens(Multi(Letters), x + "," + y) == [x, y]
    ensures Validate(Multi(Letters), x + "," + y)
  {
    var ps := [x, y];
    assert Join(ps) == x + "," + y;
    SplitJoin(ps);
    ReadOne(x);
    ReadOne(y);
  }

  /** A repeated choice is kept twice, so it is counted twice. */
  lemma RepeatedChoiceCountsTwice(x: string)
    requires x in Letters
    ensures multiset(Tokens(Multi(Letters), x + ", " + x))[x] == 2
  {
    ReadTwo(x, x);
  }

  /**
   An answer with no comma whose trimmed text is not a candidate (such as "Z")
   is rejected, and the service stays as it was.
   */
  lemma InvalidAnswerDropped(svc: Service, st: Student, answer: string)
    requires svc.question == Some(Multi(Letters))
    requires Comma !in answer && Trim(answer) !in Letters
    ensures Submit(svc, SubmitAnswer(st, answer)) == svc
  {
    MultiWithoutComma(Letters, answer);
  }

  /** A valid answer is stored under the student's identifier. */
  lemma Accepted(svc: Service, id: string, answer: string)
    requires svc.question.Some?
    requires Validate(svc.question.value, answer)
    ensures Submit(svc, SubmitAnswer(NewStudent(id), answer)) == svc.(subs := svc.subs[id := answer])
  {
  }

  /** Three valid answers from three different students, into an empty service, report all their tokens together. */
  lemma ThreeNew(svc: Service, i0: string, i1: string, i2: string, a0: string, a1: string, a2: string)
    requires svc.question.Some? && svc.subs == map[]
    requires i0 != i1 && i0 != i2 && i1 != i2
    requires Validate(svc.question.value, a0) && Validate(svc.question.value, a1) && Validate(svc.question.value, a2)
    ensures var s1 := Submit(svc, SubmitAnswer(NewStudent(i0), a0));
            var s2 := Submit(s1, SubmitAnswer(NewStudent(i1), a1));
            var s3 := Submit(s2, SubmitAnswer(NewStudent(i2), a2));
            var q := svc.question.value;
            TokenBag(s3) == multiset(Tokens(q, a0)) + multiset(Tokens(q, a1)) + multiset(Tokens(q, a2))
  {
    var q := svc.question.value;
    var subs := map[i0 := a0, i1 := a1, i2 := a2];
    Accepted(svc, i0, a0);
    var s1 := Submit(svc, SubmitAnswer(NewStudent(i0), a0));
    Accepted(s1, i1, a1);
    var s2 := Submit(s1, SubmitAnswer(NewStudent(i1), a1));
    Accepted(s2, i2, a2);
    var s3 := Submit(s2, SubmitAnswer(NewStudent(i2), a2));
    assert s3 == svc.(subs := subs);
    TokenBagOfActive(svc.(subs := subs));
    BagOfThree(Reader(q), i0, i1, i2, a0, a1, a2);
    assert Reader(q)(a0) == Tokens(q, a0) && Reader(q)(a1) == Tokens(q, a1) && Reader(q)(a2) == Tokens(q, a2);
    assert TokenBag(s3) == multiset(Tokens(q, a0)) + multiset(Tokens(q, a1)) + multiset(Tokens(q, a2));
  }

  /** The two-choice answers of the poll below, written out. */
  lemma Spelled()
    ensures "B" + "," + "C" == "B,C"
    ensures "A" + ", " + "D" == "A, D"
  {
  }

  /** The tally of the multi-choice poll below. */
  lemma LetterCounts()
    ensures CountsOf(multiset(["A"]) + multiset(["B", "C"]) + multiset(["A", "D"]))
            == map["A" := 2, "B" := 1, "C" := 1, "D" := 1]
  {
    var bag := multiset(["A"]) + multiset(["B", "C"]) + multiset(["A", "D"]);
    assert bag == multiset{"A", "A", "B", "C", "D"};
    assert CountsOf(bag).Keys == {"A", "B", "C", "D"};
  }

  /** The tally of the single-choice poll below. */
  lemma VerdictCounts()
    ensures CountsOf(multiset(["1. Right"]) + multiset(["1. Right"]) + multiset(["2. Wrong"]))
            == map["1. Right" := 2, "2. Wrong" := 1]
  {
    var bag := multiset(["1. Right"]) + multiset(["1. Right"]) + multiset(["2. Wrong"]);
    assert bag == multiset{"1. Right", "1. Right", "2. Wrong"};
    assert CountsOf(bag).Keys == {"1. Right", "2. Wrong"};
  }

  /** Three students answering "A", "B,C" and "A, D" to a fresh multi-choice question report A:2, B:1, C:1, D:1. */
  lemma MultiChoicePoll(i0: string, i1: string, i2: string)
    requires i0 != i1 && i0 != i2 && i1 != i2
    ensures var s0 := Configure(Init(), Multi(Letters));
            var s1 := Submit(s0, SubmitAnswer(NewStudent(i0), "A"));
            var s2 := Submit(s1, SubmitAnswer(NewStudent(i1), "B,C"));
            var s3 := Submit(s2, SubmitAnswer(NewStudent(i2), "A, D"));
            CountsOf(TokenBag(s3)) == map["A" := 2, "B" := 1, "C" := 1, "D" := 1]
  {
    var q := Multi(Letters);
    ReadOne("A");
    ReadPair("B", "C");
    ReadTwo("A", "D");
    Spelled();
    ThreeNew(Configure(Init(), q), i0, i1, i2, "A", "B,C", "A, D");
    LetterCounts();
  }

  /** Three students answering "1. Right", "1. Right" and "2. Wrong" to a fresh single-choice question report 1. Right:2, 2. Wrong:1. */
  lemma SingleChoicePoll(i0: string, i1: string, i2: string)
    requires i0 != i1 && i0 != i2 && i1 != i2
    ensures var s0 := Configure(Init(), Single(Verdicts));
            var s1 := Submit(s0, SubmitAnswer(NewStudent(i0), "1. Right"));
            var s2 := Submit(s1, SubmitAnswer(NewStudent(i1), "1. Right"));
            var s3 := Submit(s2, SubmitAnswer(NewStudent(i2), "2. Wrong"));
            CountsOf(TokenBag(s3)) == map["1. Right" := 2, "2. Wrong" := 1]
  {
    var q := Single(Verdicts);
    assert Validate(q, "1. Right") && Validate(q, "2. Wrong");
    ThreeNew(Configure(Init(), q), i0, i1, i2, "1. Right", "1. Right", "2. Wrong");
    VerdictCounts();
  }
}
