/**
 The two question kinds of the poll. Both carry the ordered list of candidate
 answers; they differ only in how a submitted answer string is read: a
 single-choice answer is one token taken verbatim, a multi-choice answer is a
 comma-separated list of tokens, each trimmed.
 */
module Questions {
  import opened JavaStrings

  datatype Question =
    | Single(cands: seq<string>)
    | Multi(cands: seq<string>)

  /** Each piece trimmed, in order. */
  function TrimAll(ps: seq<string>): (ts: seq<string>)
    ensures |ts| == |ps|
    ensures forall i :: 0 <= i < |ts| ==> ts[i] == Trim(ps[i])
  {
    if ps == [] then [] else [Trim(ps[0])] + TrimAll(ps[1..])
  }

  /** The answer tokens the question reads out of a submission, one per counted vote. */
  function Tokens(q: Question, answer: string): seq<string>
  {
    match q
    case Single(_) => [answer]
    case Multi(_) => TrimAll(Split(answer))
  }

  /**
   `validateAns` of both question kinds: a single-choice answer must be one of
   the candidates exactly; every trimmed piece of a multi-choice answer must be
   one. There is no requirement that a multi-choice answer has any piece at all.
   */
  function Validate(q: Question, answer: string): (ok: bool)
    ensures q.Single? ==> (ok <==> answer in q.cands)
    ensures q.Multi? ==> (ok <==> forall p :: p in Split(answer) ==> Trim(p) in q.cands)
  {
    match q
    case Single(cands) => answer in cands
    case Multi(cands) =>
      var ps := Split(answer);
      forall i :: 0 <= i < |ps| ==> Trim(ps[i]) in cands
  }

  /** Validation and tokenisation agree: an answer is valid iff every token it yields is a candidate. */
  lemma ValidIffTokensAreCandidates(q: Question, answer: string)
    ensures Validate(q, answer) <==> forall t :: t in Tokens(q, answer) ==> t in q.cands
  {
    if q.Multi? {
      var ps := Split(answer);
      var ts := Tokens(q, answer);
      if Validate(q, answer) {
        forall t | t in ts
          ensures t in q.cands
        {
          var i :| 0 <= i < |ts| && ts[i] == t;
          assert ps[i] in ps;
        }
      } else {
        var i :| 0 <= i < |ps| && Trim(ps[i]) !in q.cands;
        assert ts[i] in ts;
      }
    }
  }

  /**
   Both `validateAns` variants on an answer written as comma-free pieces joined
   by commas: multi-choice checks each piece after trimming it, single-choice
   looks for the whole joined string among the candidates, commas included.
   */
  lemma ValidateJoin(cands: seq<string>, ps: seq<string>)
    requires |ps| >= 2
    requires forall i :: 0 <= i < |ps| ==> Comma !in ps[i]
    requires ps[|ps| - 1] != []
    ensures Validate(Multi(cands), Join(ps)) <==> forall i :: 0 <= i < |ps| ==> Trim(ps[i]) in cands
    ensures Validate(Single(cands), Join(ps)) <==> Join(ps) in cands
  {
    SplitJoin(ps);
  }

  /** With no comma, a multi-choice answer is one piece, checked after trimming. */
  lemma MultiWithoutComma(cands: seq<string>, answer: string)
    requires Comma !in answer
    ensures Validate(Multi(cands), answer) <==> Trim(answer) in cands
    ensures Tokens(Multi(cands), answer) == [Trim(answer)]
  {
    assert Split(answer) == [answer];
  }

  /** An answer made only of commas splits into no pieces, so every multi-choice question accepts it. */
  lemma OnlyCommasAcceptedVacuously(cands: seq<string>, answer: string)
    requires |answer| >= 1
    requires forall i :: 0 <= i < |answer| ==> answer[i] == Comma
    ensures Validate(Multi(cands), answer)
    ensures Tokens(Multi(cands), answer) == []
  {
    assert answer[0] in answer;
    OnlyCommasSplitEmpty(answer);
  }

  lemma {:induction false} OnlyCommasSplitEmpty(answer: string)
    requires forall i :: 0 <= i < |answer| ==> answer[i] == Comma
    ensures forall i :: 0 <= i < |RawSplit(answer)| ==> RawSplit(answer)[i] == []
    decreases |answer|
  {
    if |answer| > 0 {
      OnlyCommasSplitEmpty(answer[1..]);
    }
  }

  /** A comma appended to a non-empty multi-choice answer changes neither its validity nor its tokens. */
  lemma TrailingCommaIgnored(cands: seq<string>, answer: string)
    requires answer != []
    ensures Validate(Multi(cands), answer + [Comma]) == Validate(Multi(cands), answer)
    ensures Tokens(Multi(cands), answer + [Comma]) == Tokens(Multi(cands), answer)
  {
    SplitIgnoresTrailingComma(answer);
  }

  /** The empty answer is one empty piece, not zero pieces: it is valid only if "" is a candidate. */
  lemma EmptyAnswer(q: Question)
    ensures Tokens(q, []) == [[]]
    ensures Validate(q, []) <==> [] in q.cands
  {
    if q.Multi? {
      var e: string := [];
      assert |Trim(e)| == 0;
      MultiWithoutComma(q.cands, e);
    }
  }
}
